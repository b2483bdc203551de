/** Type paths, their stripped form, and references as dotted names. */
module TypeNames {
  import opened PathSegments

  /** The components of a Rust path, split at each `::`. */
  function Components(fullPath: string): (parts: seq<string>)
    ensures parts != []
  {
    if |fullPath| >= 2 && fullPath[0] == ':' && fullPath[1] == ':' then [""] + Components(fullPath[2..])
    else if fullPath == "" then [""]
    else
      var parts := Components(fullPath[1..]);
      [[fullPath[0]] + parts[0]] + parts[1..]
  }

  lemma {:induction false} ComponentsKeepOut(fullPath: string, c: char)
    requires c !in fullPath
    ensures forall i :: 0 <= i < |Components(fullPath)| ==> c !in Components(fullPath)[i]
  {
    if |fullPath| >= 2 && fullPath[0] == ':' && fullPath[1] == ':' {
      ComponentsKeepOut(fullPath[2..], c);
    } else if fullPath != "" {
      ComponentsKeepOut(fullPath[1..], c);
    }
  }

  function Joined(parts: seq<string>): (s: string)
  {
    if parts == [] then "" else if |parts| == 1 then parts[0] else parts[0] + "::" + Joined(parts[1..])
  }

  lemma {:induction false} JoinedHead(head: string, first: string, rest: seq<string>)
    ensures Joined([head + first] + rest) == head + Joined([first] + rest)
  {
    assert ([head + first] + rest)[1..] == rest && ([first] + rest)[1..] == rest;
  }

  /** Joining the components with `::` gives the path back. */
  lemma {:induction false} JoinComponents(fullPath: string)
    ensures Joined(Components(fullPath)) == fullPath
  {
    if |fullPath| >= 2 && fullPath[0] == ':' && fullPath[1] == ':' {
      var parts := Components(fullPath[2..]);
      JoinComponents(fullPath[2..]);
      assert ([""] + parts)[1..] == parts;
      assert fullPath == "::" + fullPath[2..];
    } else if fullPath != "" {
      var parts := Components(fullPath[1..]);
      JoinComponents(fullPath[1..]);
      JoinedHead([fullPath[0]], parts[0], parts[1..]);
      assert [parts[0]] + parts[1..] == parts;
      assert fullPath == [fullPath[0]] + fullPath[1..];
    }
  }

  lemma {:induction false} ComponentsPlain(plain: string, rest: string)
    requires ':' !in plain
    ensures var parts := Components(rest); Components(plain + rest) == [plain + parts[0]] + parts[1..]
  {
    var parts := Components(rest);
    if plain == "" {
      assert plain + rest == rest && plain + parts[0] == parts[0];
      assert [parts[0]] + parts[1..] == parts;
    } else {
      assert plain[0] in plain && (plain + rest)[0] == plain[0];
      assert (plain + rest)[1..] == plain[1..] + rest;
      ComponentsPlain(plain[1..], rest);
      assert [plain[0]] + (plain[1..] + parts[0]) == plain + parts[0];
    }
  }

  lemma {:induction false} ComponentsNext(part: string, rest: string, parts: seq<string>)
    requires ':' !in part && Components(rest) == parts
    ensures Components(part + ("::" + rest)) == [part] + parts
  {
    var tail := "::" + rest;
    assert tail[2..] == rest;
    assert Components(tail) == [""] + parts;
    ComponentsPlain(part, tail);
    assert part + "" == part && ([""] + parts)[1..] == parts;
  }

  /** A path joined from components without colons has exactly those components. */
  lemma {:induction false} ComponentsOfJoined(parts: seq<string>)
    requires parts != [] && forall i :: 0 <= i < |parts| ==> ':' !in parts[i]
    ensures Components(Joined(parts)) == parts
  {
    var part, rest := parts[0], parts[1..];
    assert parts == [part] + rest;
    if rest == [] {
      ComponentsPlain(part, "");
      assert part + "" == part;
    } else {
      ComponentsOfJoined(rest);
      ComponentsNext(part, Joined(rest), rest);
      assert part + "::" + Joined(rest) == part + ("::" + Joined(rest));
    }
  }

  predicate HasSeparator(s: string)
  {
    |s| >= 2 && ((s[0] == ':' && s[1] == ':') || HasSeparator(s[1..]))
  }

  /** No component holds a separator. */
  lemma {:induction false} ComponentsAreWhole(fullPath: string)
    ensures Components(fullPath)[0] <= fullPath
    ensures forall i :: 0 <= i < |Components(fullPath)| ==> !HasSeparator(Components(fullPath)[i])
  {
    if |fullPath| >= 2 && fullPath[0] == ':' && fullPath[1] == ':' {
      ComponentsAreWhole(fullPath[2..]);
    } else if fullPath != "" {
      ComponentsAreWhole(fullPath[1..]);
      var first := Components(fullPath[1..])[0];
      assert ([fullPath[0]] + first)[1..] == first;
    }
  }

  function Position(parts: seq<string>, part: string): (i: nat)
    ensures i <= |parts| && part !in parts[..i]
    ensures i < |parts| ==> parts[i] == part
  {
    if parts == [] || parts[0] == part then 0 else
    var i := Position(parts[1..], part);
    assert parts[..i + 1] == [parts[0]] + parts[1..][..i];
    i + 1
  }

  /** A non-empty list of components, the last one apart. */
  datatype QualifiedName = QualifiedName(namespace: seq<string>, typeName: string)

  function Parts(name: QualifiedName): (parts: seq<string>)
  {
    name.namespace + [name.typeName]
  }

  function FromParts(parts: seq<string>): (name: QualifiedName)
    requires parts != []
    ensures Parts(name) == parts
  {
    QualifiedName(parts[..|parts| - 1], parts[|parts| - 1])
  }

  /** What follows the component after the first `pages`; without such a rest, the last component alone. */
  function StripRoutePrefix(fullPath: string): (path: QualifiedName)
  {
    var parts := Components(fullPath);
    var start := Position(parts, "pages") + 2;
    FromParts(if start < |parts| then parts[start..] else [parts[|parts| - 1]])
  }

  /** Everything after the first `pages` and the page's own component, however many `pages` follow. */
  lemma {:induction false} StripsToRest(fullPath: string, before: seq<string>, page: string, rest: seq<string>)
    requires Components(fullPath) == before + ["pages", page] + rest && "pages" !in before && rest != []
    ensures Parts(StripRoutePrefix(fullPath)) == rest
  {
    var parts, i := Components(fullPath), Position(Components(fullPath), "pages");
    assert parts[|before|] == "pages";
    assert i == |before|;
  }

  /** Without such a rest only the last component is kept. */
  lemma {:induction false} StripsToLast(fullPath: string)
    requires var parts := Components(fullPath); "pages" !in parts[..if |parts| >= 2 then |parts| - 2 else 0]
    ensures var parts := Components(fullPath); Parts(StripRoutePrefix(fullPath)) == [parts[|parts| - 1]]
  {
    var parts, i := Components(fullPath), Position(Components(fullPath), "pages");
    assert i + 2 >= |parts|;
  }

  lemma {:induction false} StripKeepsLast(fullPath: string)
    ensures var parts := Components(fullPath); StripRoutePrefix(fullPath).typeName == parts[|parts| - 1]
  {
  }

  /** The path of a type declared in a page. */
  function PagePath(page: string, typeName: string): (fullPath: string)
  {
    Joined(["pages"] + [page] + [typeName])
  }

  lemma PagePathComponents(page: string, typeName: string)
    requires ':' !in page && ':' !in typeName
    ensures Components(PagePath(page, typeName)) == ["pages"] + [page] + [typeName]
    ensures StripRoutePrefix(PagePath(page, typeName)) == QualifiedName([], typeName)
  {
    ComponentsOfJoined(["pages"] + [page] + [typeName]);
    assert [] + ["pages", page] + [typeName] == ["pages"] + [page] + [typeName];
    StripsToRest(PagePath(page, typeName), [], page, [typeName]);
    assert Parts(StripRoutePrefix(PagePath(page, typeName)))[0] == typeName;
  }

  /** Types of the same name in two pages strip to the same path. */
  lemma PagesClash(page: string, other: string, typeName: string)
    requires ':' !in page && ':' !in other && ':' !in typeName && page != other
    ensures PagePath(page, typeName) != PagePath(other, typeName)
    ensures StripRoutePrefix(PagePath(page, typeName)) == StripRoutePrefix(PagePath(other, typeName))
  {
    PagePathComponents(page, typeName);
    PagePathComponents(other, typeName);
    assert (["pages"] + [page] + [typeName])[1] != (["pages"] + [other] + [typeName])[1];
  }

  ghost predicate DotFree(name: QualifiedName)
  {
    '.' !in name.typeName && forall i :: 0 <= i < |name.namespace| ==> '.' !in name.namespace[i]
  }

  lemma StrippedIsDotFree(fullPath: string)
    requires '.' !in fullPath
    ensures DotFree(StripRoutePrefix(fullPath))
  {
    ComponentsKeepOut(fullPath, '.');
  }

  function Dotted(parts: seq<string>): (s: string)
  {
    if parts == [] then "" else if |parts| == 1 then parts[0] else parts[0] + "." + Dotted(parts[1..])
  }

  function Reference(name: QualifiedName): (s: string)
  {
    Dotted(Parts(name))
  }

  lemma {:induction false} DottedAppend(parts: seq<string>, last: string)
    requires parts != []
    ensures Dotted(parts + [last]) == Unsplit(parts, '.') + "." + last
  {
    assert (parts + [last])[1..] == parts[1..] + [last];
    if |parts| == 1 {
      assert parts[1..] + [last] == [last];
    } else {
      DottedAppend(parts[1..], last);
    }
  }

  /** The type name alone, or after its namespace with dots between. */
  lemma ReferenceExactly(name: QualifiedName)
    ensures Reference(name) == if name.namespace == [] then name.typeName
                               else Unsplit(name.namespace, '.') + "." + name.typeName
  {
    if name.namespace != [] {
      DottedAppend(name.namespace, name.typeName);
    }
  }

  lemma {:induction false} SplitDotted(parts: seq<string>)
    requires parts != [] && forall i :: 0 <= i < |parts| ==> '.' !in parts[i]
    ensures Split(Dotted(parts), '.') == parts
  {
    if |parts| == 1 {
      SplitPlain(parts[0], "", '.');
      assert parts[0] + "" == parts[0];
    } else {
      var rest := "." + Dotted(parts[1..]);
      SplitDotted(parts[1..]);
      assert rest[1..] == Dotted(parts[1..]);
      assert Split(rest, '.') == [""] + parts[1..];
      SplitPlain(parts[0], rest, '.');
      assert parts[0] + "." + Dotted(parts[1..]) == parts[0] + rest;
      assert parts[0] + "" == parts[0];
    }
  }

  /** References of dot-free names tell the names apart. */
  lemma ReferenceInjective(name: QualifiedName, other: QualifiedName)
    requires DotFree(name) && DotFree(other)
    requires Reference(name) == Reference(other)
    ensures name == other
  {
    SplitDotted(Parts(name));
    SplitDotted(Parts(other));
    assert Parts(name)[|name.namespace|] == name.typeName && Parts(other)[|other.namespace|] == other.typeName;
    assert Parts(name)[..|name.namespace|] == name.namespace && Parts(other)[..|other.namespace|] == other.namespace;
  }

  /** The last `depth` components of the namespace, or all of them when there are fewer. */
  function AtDepth(path: QualifiedName, depth: nat): (name: QualifiedName)
    ensures depth >= |path.namespace| ==> name == path
  {
    var n := |path.namespace|;
    var length := if n < depth then n else depth;
    QualifiedName(path.namespace[n - length..], path.typeName)
  }

  function ReferenceAt(path: QualifiedName, depth: nat): (s: string)
  {
    Reference(AtDepth(path, depth))
  }

  lemma SameReference(path: QualifiedName, other: QualifiedName, depth: nat)
    requires DotFree(path) && DotFree(other)
    ensures ReferenceAt(path, depth) == ReferenceAt(other, depth) <==> AtDepth(path, depth) == AtDepth(other, depth)
  {
    var p, q := AtDepth(path, depth), AtDepth(other, depth);
    if Reference(p) == Reference(q) {
      ReferenceInjective(p, q);
    }
  }
}
