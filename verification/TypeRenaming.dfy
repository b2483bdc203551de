/** Resolving the names of all definitions at once, and rewriting the type trees with them. */
module TypeRenaming {
  import opened TypeNames
  import opened NameResolution

  // ---- one name per definition ----

  /** A definition's full path and what is left of it after stripping. */
  datatype Entry = Entry(fullPath: string, path: QualifiedName)

  /** Entries with the same full path have the same stripped path. */
  ghost predicate Consistent(entries: seq<Entry>)
  {
    forall e, f :: e in entries && f in entries && e.fullPath == f.fullPath ==> e == f
  }

  function Paths(entries: seq<Entry>): (paths: seq<QualifiedName>)
    ensures |paths| == |entries|
  {
    if entries == [] then [] else [entries[0].path] + Paths(entries[1..])
  }

  lemma {:induction false} PathsIndex(entries: seq<Entry>, i: nat)
    requires i < |entries|
    ensures Paths(entries)[i] == entries[i].path
  {
    if i > 0 {
      PathsIndex(entries[1..], i - 1);
    }
  }

  /** The entries with this type name, in order of definition. */
  function Group(entries: seq<Entry>, typeName: string): (group: seq<Entry>)
  {
    if entries == [] then [] else
    var last := |entries| - 1;
    Group(entries[..last], typeName) + if entries[last].path.typeName == typeName then [entries[last]] else []
  }

  lemma {:induction false} GroupMembers(entries: seq<Entry>, typeName: string)
    ensures forall e :: e in Group(entries, typeName) <==> e in entries && e.path.typeName == typeName
  {
    if entries != [] {
      var last := |entries| - 1;
      GroupMembers(entries[..last], typeName);
      assert entries == entries[..last] + [entries[last]];
    }
  }

  /** Every entry of this type name is in the group as often as it was given, and no other is. */
  lemma {:induction false} GroupCounts(entries: seq<Entry>, typeName: string, e: Entry)
    ensures multiset(Group(entries, typeName))[e] ==
            if e.path.typeName == typeName then multiset(entries)[e] else 0
  {
    if entries != [] {
      var front, last := entries[..|entries| - 1], entries[|entries| - 1];
      GroupCounts(front, typeName, e);
      assert entries == front + [last];
    }
  }

  /** The name an entry gets: its stripped path cut to the depth its group needs. */
  function NameIn(entries: seq<Entry>, e: Entry): (name: QualifiedName)
  {
    AtDepth(e.path, GroupDepth(Paths(Group(entries, e.path.typeName))))
  }

  type NameMap = map<string, QualifiedName>

  method GroupByTypeName(entries: seq<Entry>) returns (groups: map<string, seq<Entry>>)
    ensures forall typeName :: typeName in groups <==> Group(entries, typeName) != []
    ensures forall typeName :: typeName in groups ==> groups[typeName] == Group(entries, typeName)
  {
    groups := map[];
    for i := 0 to |entries|
      invariant forall typeName :: typeName in groups <==> Group(entries[..i], typeName) != []
      invariant forall typeName :: typeName in groups ==> groups[typeName] == Group(entries[..i], typeName)
    {
      assert entries[..i + 1][..i] == entries[..i];
      var typeName := entries[i].path.typeName;
      var group := if typeName in groups then groups[typeName] else [];
      groups := groups[typeName := group + [entries[i]]];
    }
    assert entries[..|entries|] == entries;
  }

  /** The map holds the right names of the entries whose type name has been covered, and of no stranger. */
  ghost predicate Named(names: NameMap, entries: seq<Entry>, covered: set<string>, nameOf: Entry -> QualifiedName)
  {
    && (forall e :: e in entries && e.path.typeName in covered ==>
                      e.fullPath in names && names[e.fullPath] == nameOf(e))
    && (forall p :: p in names ==> exists e :: e in entries && e.fullPath == p)
  }

  /** Exactly the full paths of the entries are named, each with its name. */
  ghost predicate Resolves(names: NameMap, entries: seq<Entry>, nameOf: Entry -> QualifiedName)
  {
    && (forall p :: p in names ==> exists e :: e in entries && e.fullPath == p)
    && (forall e :: e in entries ==> e.fullPath in names && names[e.fullPath] == nameOf(e))
  }

  function Naming(entries: seq<Entry>): (nameOf: Entry -> QualifiedName)
  {
    (e: Entry) => NameIn(entries, e)
  }

  lemma {:induction false} NameInGroup(entries: seq<Entry>, typeName: string, i: nat)
    requires i < |Group(entries, typeName)|
    ensures var group := Group(entries, typeName);
            ResolvedNames(Paths(group), GroupDepth(Paths(group)))[i] == Naming(entries)(group[i])
  {
    var group := Group(entries, typeName);
    GroupMembers(entries, typeName);
    assert group[i] in group;
    PathsIndex(group, i);
    ResolvedNamesIndex(Paths(group), GroupDepth(Paths(group)), i);
  }

  /** The zip loop: one insertion per member of the group. */
  method InsertAll(names: NameMap, group: seq<Entry>, resolved: seq<QualifiedName>, ghost entries: seq<Entry>,
                   ghost covered: set<string>, ghost nameOf: Entry -> QualifiedName)
    returns (names': NameMap)
    requires |resolved| == |group|
    requires forall k :: 0 <= k < |group| ==> group[k] in entries && resolved[k] == nameOf(group[k])
    requires Consistent(entries) && Named(names, entries, covered, nameOf)
    ensures Named(names', entries, covered, nameOf)
    ensures forall e :: e in group ==> e.fullPath in names' && names'[e.fullPath] == nameOf(e)
  {
    names' := names;
    for i := 0 to |group|
      invariant Named(names', entries, covered, nameOf)
      invariant forall e :: e in group[..i] ==> e in entries && e.fullPath in names' && names'[e.fullPath] == nameOf(e)
    {
      names' := names'[group[i].fullPath := resolved[i]];
      assert group[..i + 1] == group[..i] + [group[i]];
    }
    assert group[..|group|] == group;
  }

  lemma {:induction false} ResolvedGroup(entries: seq<Entry>, typeName: string, resolved: seq<QualifiedName>)
    requires var paths := Paths(Group(entries, typeName)); resolved == ResolvedNames(paths, GroupDepth(paths))
    ensures var group := Group(entries, typeName);
            && |resolved| == |group|
            && forall k :: 0 <= k < |group| ==> group[k] in entries && resolved[k] == Naming(entries)(group[k])
  {
    var group := Group(entries, typeName);
    GroupMembers(entries, typeName);
    forall k | 0 <= k < |group|
      ensures group[k] in entries && resolved[k] == Naming(entries)(group[k])
    {
      assert group[k] in group;
      NameInGroup(entries, typeName, k);
    }
  }

  lemma {:induction false} GroupIsCovered(entries: seq<Entry>, typeName: string, names: NameMap,
                                          covered: set<string>, nameOf: Entry -> QualifiedName)
    requires Named(names, entries, covered, nameOf)
    requires forall e :: e in Group(entries, typeName) ==> e.fullPath in names && names[e.fullPath] == nameOf(e)
    ensures Named(names, entries, covered + {typeName}, nameOf)
  {
    GroupMembers(entries, typeName);
  }

  method ResolveGroup(entries: seq<Entry>, typeName: string, group: seq<Entry>,
                      names: NameMap, ghost covered: set<string>)
    returns (names': NameMap)
    requires Consistent(entries) && group == Group(entries, typeName)
    requires Named(names, entries, covered, Naming(entries))
    ensures Named(names', entries, covered + {typeName}, Naming(entries))
  {
    var resolved := FindShortestUniqueNamespaces(Paths(group));
    ResolvedGroup(entries, typeName, resolved);
    names' := InsertAll(names, group, resolved, entries, covered, Naming(entries));
    GroupIsCovered(entries, typeName, names', covered, Naming(entries));
  }

  ghost predicate EntriesDotFree(entries: seq<Entry>)
  {
    forall e :: e in entries ==> DotFree(e.path)
  }

  lemma {:induction false} GroupIsDotFree(entries: seq<Entry>, typeName: string)
    requires EntriesDotFree(entries)
    ensures AllDotFree(Paths(Group(entries, typeName)))
  {
    var group := Group(entries, typeName);
    GroupMembers(entries, typeName);
    forall i | 0 <= i < |group|
      ensures DotFree(Paths(group)[i])
    {
      assert group[i] in group;
      PathsIndex(group, i);
    }
  }

  /** The name keeps as much of the end of the path as it takes to tell the entries of its type name apart. */
  ghost predicate IsShortestName(entries: seq<Entry>, e: Entry, name: QualifiedName)
  {
    exists depth :: IsShortened(e.path, name, depth)
                    && IsShortestDepth(Paths(Group(entries, e.path.typeName)), depth)
  }

  lemma NameIsShortest(entries: seq<Entry>, e: Entry)
    requires EntriesDotFree(entries)
    ensures IsShortestName(entries, e, Naming(entries)(e))
  {
    var paths := Paths(Group(entries, e.path.typeName));
    GroupIsDotFree(entries, e.path.typeName);
    GroupDepthIsShortest(paths);
    AtDepthIsShortened(e.path, GroupDepth(paths));
  }

  /** Groups are visited in no particular order. */
  method ResolveTypeNames(entries: seq<Entry>) returns (names: NameMap)
    requires Consistent(entries)
    ensures Resolves(names, entries, Naming(entries))
    ensures EntriesDotFree(entries) ==>
              forall e :: e in entries ==> e.fullPath in names && IsShortestName(entries, e, names[e.fullPath])
  {
    names := ResolveGroups(entries);
    if EntriesDotFree(entries) {
      forall e | e in entries
        ensures IsShortestName(entries, e, names[e.fullPath])
      {
        NameIsShortest(entries, e);
      }
    }
  }

  method ResolveGroups(entries: seq<Entry>) returns (names: NameMap)
    requires Consistent(entries)
    ensures Resolves(names, entries, Naming(entries))
  {
    var groups := GroupByTypeName(entries);
    ghost var nameOf := Naming(entries);
    names := map[];
    var todo := groups.Keys;
    ghost var covered := {};
    while todo != {}
      invariant todo <= groups.Keys && groups.Keys == covered + todo
      invariant Named(names, entries, covered, nameOf)
      decreases todo
    {
      var typeName :| typeName in todo;
      names := ResolveGroup(entries, typeName, groups[typeName], names, covered);
      covered := covered + {typeName};
      todo := todo - {typeName};
    }
    forall e | e in entries
      ensures e.path.typeName in covered
    {
      GroupMembers(entries, e.path.typeName);
    }
  }

  // ---- references are exact ----

  /** Over any definitions, two of them get the same reference if and only if they strip to the same path. */
  lemma ReferencesExact(entries: seq<Entry>, e: Entry, f: Entry)
    requires EntriesDotFree(entries) && e in entries && f in entries
    ensures Reference(NameIn(entries, e)) == Reference(NameIn(entries, f)) <==> e.path == f.path
  {
    var x, y := NameIn(entries, e), NameIn(entries, f);
    if e.path.typeName == f.path.typeName {
      var group := Group(entries, e.path.typeName);
      GroupMembers(entries, e.path.typeName);
      GroupIsDotFree(entries, e.path.typeName);
      var i :| 0 <= i < |group| && group[i] == e;
      var j :| 0 <= j < |group| && group[j] == f;
      PathsIndex(group, i);
      PathsIndex(group, j);
      GroupReferencesExact(Paths(group), i, j);
    } else if Reference(x) == Reference(y) {
      ReferenceInjective(x, y);
    }
  }

  // ---- type trees ----

  datatype TsType =
    | Primitive(text: string)
    | Array(inner: TsType)
    | Tuple(types: seq<TsType>)
    | Union(types: seq<TsType>)
    | Object(fields: seq<TsField>)
    | Undefined(inner: TsType)
    | Ref(name: string)

  datatype TsField = TsField(name: string, ty: TsType, isOptional: bool)

  datatype TsDefinition = TsDefinition(fullPath: string, name: QualifiedName, ty: TsType)

  function Rename(name: string, names: NameMap): (s: string)
  {
    if name in names then Reference(names[name]) else name
  }

  function Apply(ty: TsType, names: NameMap): (ty': TsType)
    decreases ty
  {
    match ty
    case Primitive(_) => ty
    case Array(inner) => Array(Apply(inner, names))
    case Tuple(types) => Tuple(ApplyAll(types, names))
    case Union(types) => Union(ApplyAll(types, names))
    case Object(fields) => Object(ApplyFields(fields, names))
    case Undefined(inner) => Undefined(Apply(inner, names))
    case Ref(name) => Ref(Rename(name, names))
  }

  function ApplyAll(types: seq<TsType>, names: NameMap): (types': seq<TsType>)
    decreases types
  {
    if types == [] then [] else [Apply(types[0], names)] + ApplyAll(types[1..], names)
  }

  function ApplyFields(fields: seq<TsField>, names: NameMap): (fields': seq<TsField>)
    decreases fields
  {
    if fields == [] then [] else
    [fields[0].(ty := Apply(fields[0].ty, names))] + ApplyFields(fields[1..], names)
  }

  /** The reference names of a type, from left to right. */
  function Refs(ty: TsType): (refs: seq<string>)
    decreases ty
  {
    match ty
    case Primitive(_) => []
    case Array(inner) => Refs(inner)
    case Tuple(types) => RefsAll(types)
    case Union(types) => RefsAll(types)
    case Object(fields) => RefsFields(fields)
    case Undefined(inner) => Refs(inner)
    case Ref(name) => [name]
  }

  function RefsAll(types: seq<TsType>): (refs: seq<string>)
    decreases types
  {
    if types == [] then [] else Refs(types[0]) + RefsAll(types[1..])
  }

  function RefsFields(fields: seq<TsField>): (refs: seq<string>)
    decreases fields
  {
    if fields == [] then [] else Refs(fields[0].ty) + RefsFields(fields[1..])
  }

  /** Equal but for the reference names. */
  predicate SameShape(t: TsType, u: TsType)
    decreases t
  {
    match t
    case Primitive(_) => u == t
    case Array(inner) => u.Array? && SameShape(inner, u.inner)
    case Tuple(types) => u.Tuple? && SameShapes(types, u.types)
    case Union(types) => u.Union? && SameShapes(types, u.types)
    case Object(fields) => u.Object? && SameFields(fields, u.fields)
    case Undefined(inner) => u.Undefined? && SameShape(inner, u.inner)
    case Ref(_) => u.Ref?
  }

  predicate SameShapes(ts: seq<TsType>, us: seq<TsType>)
    decreases ts
  {
    |ts| == |us| && (ts == [] || (SameShape(ts[0], us[0]) && SameShapes(ts[1..], us[1..])))
  }

  predicate SameFields(ts: seq<TsField>, us: seq<TsField>)
    decreases ts
  {
    |ts| == |us| &&
    (ts == [] || (&& ts[0].name == us[0].name && ts[0].isOptional == us[0].isOptional
                  && SameShape(ts[0].ty, us[0].ty) && SameFields(ts[1..], us[1..])))
  }

  function RenameAll(refs: seq<string>, names: NameMap): (refs': seq<string>)
    ensures |refs'| == |refs|
  {
    if refs == [] then [] else [Rename(refs[0], names)] + RenameAll(refs[1..], names)
  }

  lemma {:induction false} RenameAllAppend(refs: seq<string>, more: seq<string>, names: NameMap)
    ensures RenameAll(refs + more, names) == RenameAll(refs, names) + RenameAll(more, names)
  {
    if refs == [] {
      assert refs + more == more;
    } else {
      assert (refs + more)[1..] == refs[1..] + more;
      RenameAllAppend(refs[1..], more, names);
    }
  }

  /** Rewriting keeps the shape of any type, and renames its references one by one, in order. */
  lemma {:induction false} ApplyRenames(ty: TsType, names: NameMap)
    ensures SameShape(ty, Apply(ty, names))
    ensures Refs(Apply(ty, names)) == RenameAll(Refs(ty), names)
    decreases ty
  {
    match ty {
      case Primitive(_) =>
      case Array(inner) => ApplyRenames(inner, names);
      case Tuple(types) => ApplyAllRenames(types, names);
      case Union(types) => ApplyAllRenames(types, names);
      case Object(fields) => ApplyFieldsRenames(fields, names);
      case Undefined(inner) => ApplyRenames(inner, names);
      case Ref(_) =>
    }
  }

  lemma {:induction false} ApplyAllRenames(types: seq<TsType>, names: NameMap)
    ensures SameShapes(types, ApplyAll(types, names))
    ensures RefsAll(ApplyAll(types, names)) == RenameAll(RefsAll(types), names)
    decreases types
  {
    if types != [] {
      ApplyRenames(types[0], names);
      ApplyAllRenames(types[1..], names);
      RenameAllAppend(Refs(types[0]), RefsAll(types[1..]), names);
    }
  }

  lemma {:induction false} ApplyFieldsRenames(fields: seq<TsField>, names: NameMap)
    ensures SameFields(fields, ApplyFields(fields, names))
    ensures RefsFields(ApplyFields(fields, names)) == RenameAll(RefsFields(fields), names)
    decreases fields
  {
    if fields != [] {
      ApplyRenames(fields[0].ty, names);
      ApplyFieldsRenames(fields[1..], names);
      RenameAllAppend(Refs(fields[0].ty), RefsFields(fields[1..]), names);
    }
  }

  // ---- renaming all definitions ----

  /** Every definition with its stripped path. */
  function Entries(definitions: seq<TsDefinition>, strip: string -> QualifiedName): (entries: seq<Entry>)
    ensures |entries| == |definitions|
  {
    if definitions == [] then [] else
    var fullPath := definitions[0].fullPath;
    [Entry(fullPath, strip(fullPath))] + Entries(definitions[1..], strip)
  }

  lemma {:induction false} EntriesIndex(definitions: seq<TsDefinition>, strip: string -> QualifiedName, i: nat)
    requires i < |definitions|
    ensures Entries(definitions, strip)[i] == Entry(definitions[i].fullPath, strip(definitions[i].fullPath))
  {
    if i > 0 {
      EntriesIndex(definitions[1..], strip, i - 1);
    }
  }

  lemma {:induction false} EntriesMembers(definitions: seq<TsDefinition>, strip: string -> QualifiedName)
    ensures forall e :: e in Entries(definitions, strip) ==> e.path == strip(e.fullPath)
    ensures Consistent(Entries(definitions, strip))
  {
    if definitions != [] {
      EntriesMembers(definitions[1..], strip);
    }
  }

  ghost predicate IsRenamed(d: TsDefinition, d': TsDefinition, names: NameMap)
  {
    d.fullPath in names && d' == TsDefinition(d.fullPath, names[d.fullPath], Apply(d.ty, names))
  }

  lemma {:induction false} EveryPathIsNamed(definitions: seq<TsDefinition>,
                                            strip: string -> QualifiedName, names: NameMap, i: nat)
    requires i < |definitions|
    requires Resolves(names, Entries(definitions, strip), Naming(Entries(definitions, strip)))
    ensures definitions[i].fullPath in names
  {
    EntriesIndex(definitions, strip, i);
    assert Entries(definitions, strip)[i] in Entries(definitions, strip);
  }

  method RenameEach(definitions: seq<TsDefinition>, names: NameMap) returns (renamed: seq<TsDefinition>)
    requires forall i :: 0 <= i < |definitions| ==> definitions[i].fullPath in names
    ensures |renamed| == |definitions|
    ensures forall i :: 0 <= i < |definitions| ==> IsRenamed(definitions[i], renamed[i], names)
  {
    renamed := [];
    for i := 0 to |definitions|
      invariant |renamed| == i
      invariant forall k :: 0 <= k < i ==> IsRenamed(definitions[k], renamed[k], names)
    {
      var d := definitions[i];
      renamed := renamed + [TsDefinition(d.fullPath, names[d.fullPath], Apply(d.ty, names))];
    }
  }

  /** Every definition takes its resolved name, and every definition's type is rewritten. */
  method RenameDefinitions(definitions: seq<TsDefinition>, strip: string -> QualifiedName)
    returns (names: NameMap, renamed: seq<TsDefinition>)
    ensures Resolves(names, Entries(definitions, strip), Naming(Entries(definitions, strip)))
    ensures |renamed| == |definitions|
    ensures forall i :: 0 <= i < |definitions| ==> IsRenamed(definitions[i], renamed[i], names)
  {
    EntriesMembers(definitions, strip);
    names := ResolveTypeNames(Entries(definitions, strip));
    forall i | 0 <= i < |definitions|
      ensures definitions[i].fullPath in names
    {
      EveryPathIsNamed(definitions, strip, names, i);
    }
    renamed := RenameEach(definitions, names);
  }

  /** The definitions a reference stands for before renaming: those with that full path. */
  function Meaning(entries: seq<Entry>, fullPath: string): (targets: set<nat>)
  {
    set i: nat | i < |entries| && entries[i].fullPath == fullPath
  }

  /** The definitions a reference stands for after renaming: those with that namespace and name. */
  function RenamedMeaning(entries: seq<Entry>, names: NameMap, reference: string): (targets: set<nat>)
  {
    set i: nat | i < |entries| && entries[i].fullPath in names && Reference(names[entries[i].fullPath]) == reference
  }

  /** No other full path among the entries strips to this entry's path. */
  ghost predicate Apart(entries: seq<Entry>, e: Entry)
  {
    forall f :: f in entries && f.path == e.path ==> f.fullPath == e.fullPath
  }

  ghost predicate StripsApart(entries: seq<Entry>)
  {
    forall e :: e in entries ==> Apart(entries, e)
  }

  function SamePath(entries: seq<Entry>, e: Entry): (targets: set<nat>)
  {
    set i: nat | i < |entries| && entries[i].path == e.path
  }

  lemma RenamedTargets(entries: seq<Entry>, names: NameMap, e: Entry)
    requires EntriesDotFree(entries) && Resolves(names, entries, Naming(entries)) && e in entries
    ensures RenamedMeaning(entries, names, Rename(e.fullPath, names)) == SamePath(entries, e)
  {
    forall i | 0 <= i < |entries|
      ensures entries[i].fullPath in names
      ensures Reference(names[entries[i].fullPath]) == Rename(e.fullPath, names) <==> entries[i].path == e.path
    {
      assert entries[i] in entries;
      ReferencesExact(entries, entries[i], e);
    }
  }

  lemma ApartKeepsMeaning(entries: seq<Entry>, names: NameMap, e: Entry)
    requires EntriesDotFree(entries) && Resolves(names, entries, Naming(entries)) && e in entries
    requires Consistent(entries) && Apart(entries, e)
    ensures RenamedMeaning(entries, names, Rename(e.fullPath, names)) == Meaning(entries, e.fullPath)
  {
    RenamedTargets(entries, names, e);
    forall i: nat | i < |entries|
      ensures entries[i].path == e.path <==> entries[i].fullPath == e.fullPath
    {
      assert entries[i] in entries;
    }
  }

  lemma ClashConfuses(entries: seq<Entry>, names: NameMap, e: Entry, f: Entry)
    requires EntriesDotFree(entries) && Resolves(names, entries, Naming(entries)) && e in entries && f in entries
    requires e.path == f.path && e.fullPath != f.fullPath
    ensures RenamedMeaning(entries, names, Rename(e.fullPath, names)) != Meaning(entries, e.fullPath)
  {
    RenamedTargets(entries, names, e);
    var k :| 0 <= k < |entries| && entries[k] == f;
    assert k in SamePath(entries, e);
    assert k !in Meaning(entries, e.fullPath);
  }

  lemma EntryKeepsMeaning(entries: seq<Entry>, names: NameMap, e: Entry)
    requires EntriesDotFree(entries) && Consistent(entries) && Resolves(names, entries, Naming(entries)) && e in entries
    ensures RenamedMeaning(entries, names, Rename(e.fullPath, names)) == Meaning(entries, e.fullPath) <==>
            Apart(entries, e)
  {
    if f :| f in entries && f.path == e.path && f.fullPath != e.fullPath {
      ClashConfuses(entries, names, e, f);
    } else {
      ApartKeepsMeaning(entries, names, e);
    }
  }

  /**
   Renamed references stand for the definitions they stood for before, if and only if no two full paths strip
   to the same path.
   */
  lemma RenamingPreservesMeaning(entries: seq<Entry>, names: NameMap)
    requires EntriesDotFree(entries) && Consistent(entries) && Resolves(names, entries, Naming(entries))
    ensures (forall e :: e in entries ==>
               RenamedMeaning(entries, names, Rename(e.fullPath, names)) == Meaning(entries, e.fullPath))
            <==> StripsApart(entries)
  {
    forall e | e in entries
      ensures RenamedMeaning(entries, names, Rename(e.fullPath, names)) == Meaning(entries, e.fullPath) <==>
              Apart(entries, e)
    {
      EntryKeepsMeaning(entries, names, e);
    }
  }

  // ---- references inside type trees ----

  /**
   When some definition takes this text as its new reference. A text without dots is taken by a definition whose
   stripped path is that bare name, and by one that alone has it as its last component.
   */
  ghost predicate IsCaptured(entries: seq<Entry>, ref: string)
  {
    if '.' in ref then exists e :: e in entries && Reference(NameIn(entries, e)) == ref
    else (exists e :: e in entries && e.path == QualifiedName([], ref)) || |Group(entries, ref)| == 1
  }

  lemma AtDepthIsBare(path: QualifiedName, depth: nat)
    ensures AtDepth(path, depth).namespace == [] <==> path.namespace == [] || depth == 0
  {
  }

  lemma DepthIsZero(paths: seq<QualifiedName>)
    ensures GroupDepth(paths) == 0 <==> |paths| == 1
  {
  }

  lemma BareReference(path: QualifiedName, depth: nat, ref: string)
    requires DotFree(path) && '.' !in ref
    ensures Reference(AtDepth(path, depth)) == ref <==> path.typeName == ref && (path.namespace == [] || depth == 0)
  {
    var name, bare := AtDepth(path, depth), QualifiedName([], ref);
    assert Reference(bare) == ref;
    AtDepthIsBare(path, depth);
    if Reference(name) == ref {
      ReferenceInjective(name, bare);
    }
  }

  lemma {:induction false} TakesBareName(entries: seq<Entry>, e: Entry, ref: string)
    requires DotFree(e.path) && '.' !in ref
    ensures Reference(NameIn(entries, e)) == ref <==>
            e.path.typeName == ref && (e.path.namespace == [] || |Group(entries, ref)| == 1)
  {
    var group := Group(entries, e.path.typeName);
    DepthIsZero(Paths(group));
    BareReference(e.path, GroupDepth(Paths(group)), ref);
  }

  /** The condition on the entries says exactly that the resolution gives one of them this reference. */
  lemma CapturedExactly(entries: seq<Entry>, ref: string)
    requires EntriesDotFree(entries)
    ensures IsCaptured(entries, ref) <==> exists e :: e in entries && Reference(NameIn(entries, e)) == ref
  {
    if '.' !in ref {
      GroupMembers(entries, ref);
      forall e | e in entries
        ensures Reference(NameIn(entries, e)) == ref <==>
                e.path.typeName == ref && (e.path.namespace == [] || |Group(entries, ref)| == 1)
      {
        TakesBareName(entries, e, ref);
      }
      if |Group(entries, ref)| == 1 {
        assert Group(entries, ref)[0] in Group(entries, ref);
      }
      if e :| e in entries && Reference(NameIn(entries, e)) == ref {
        assert e.path.namespace == [] ==> e.path == QualifiedName([], ref);
      }
    }
  }

  /**
   When a reference is safe to rewrite. A mapped one: no other full path strips as it does. An unmapped one,
   which is left as it is: no definition captures it.
   */
  ghost predicate IsSafe(entries: seq<Entry>, ref: string)
  {
    && (forall e :: e in entries && e.fullPath == ref ==> Apart(entries, e))
    && ((exists e :: e in entries && e.fullPath == ref) || !IsCaptured(entries, ref))
  }

  lemma MappedKeepsMeaning(entries: seq<Entry>, names: NameMap, ref: string)
    requires EntriesDotFree(entries) && Consistent(entries) && Resolves(names, entries, Naming(entries))
    requires ref in names
    ensures RenamedMeaning(entries, names, Rename(ref, names)) == Meaning(entries, ref) <==> IsSafe(entries, ref)
  {
    var e :| e in entries && e.fullPath == ref;
    EntryKeepsMeaning(entries, names, e);
    assert forall f :: f in entries && f.fullPath == ref ==> f.path == e.path;
  }

  lemma UnmappedMeansNothing(entries: seq<Entry>, names: NameMap, ref: string)
    requires Resolves(names, entries, Naming(entries)) && ref !in names
    ensures Meaning(entries, ref) == {} && forall e :: e in entries ==> e.fullPath != ref
  {
    assert forall i :: 0 <= i < |entries| ==> entries[i] in entries;
  }

  lemma RenamedTarget(entries: seq<Entry>, names: NameMap, ref: string, i: nat)
    requires Resolves(names, entries, Naming(entries)) && i < |entries|
    ensures i in RenamedMeaning(entries, names, ref) <==> Reference(NameIn(entries, entries[i])) == ref
  {
    assert entries[i] in entries;
    assert names[entries[i].fullPath] == Naming(entries)(entries[i]);
  }

  lemma UnmappedKeepsMeaning(entries: seq<Entry>, names: NameMap, ref: string)
    requires EntriesDotFree(entries) && Resolves(names, entries, Naming(entries)) && ref !in names
    ensures RenamedMeaning(entries, names, Rename(ref, names)) == Meaning(entries, ref) <==> IsSafe(entries, ref)
  {
    UnmappedMeansNothing(entries, names, ref);
    CapturedExactly(entries, ref);
    if e :| e in entries && Reference(NameIn(entries, e)) == ref {
      var i :| 0 <= i < |entries| && entries[i] == e;
      RenamedTarget(entries, names, ref, i);
    } else {
      forall i: nat | i < |entries|
        ensures i !in RenamedMeaning(entries, names, ref)
      {
        assert entries[i] in entries;
        RenamedTarget(entries, names, ref, i);
      }
    }
  }

  lemma {:induction false} RenameAllIndex(refs: seq<string>, names: NameMap, i: nat)
    requires i < |refs|
    ensures RenameAll(refs, names)[i] == Rename(refs[i], names)
  {
    if i > 0 {
      RenameAllIndex(refs[1..], names, i - 1);
    }
  }

  /**
   Any type tree keeps its shape, and each of its references, mapped or not, stands for the definitions it stood
   for before, if and only if it is safe.
   */
  lemma {:induction false} TreeKeepsMeaning(ty: TsType, entries: seq<Entry>, names: NameMap)
    requires EntriesDotFree(entries) && Consistent(entries) && Resolves(names, entries, Naming(entries))
    ensures SameShape(ty, Apply(ty, names)) && |Refs(Apply(ty, names))| == |Refs(ty)|
    ensures forall i :: 0 <= i < |Refs(ty)| ==>
              (RenamedMeaning(entries, names, Refs(Apply(ty, names))[i]) == Meaning(entries, Refs(ty)[i]) <==>
               IsSafe(entries, Refs(ty)[i]))
  {
    ApplyRenames(ty, names);
    forall i | 0 <= i < |Refs(ty)|
      ensures RenamedMeaning(entries, names, Refs(Apply(ty, names))[i]) == Meaning(entries, Refs(ty)[i]) <==>
              IsSafe(entries, Refs(ty)[i])
    {
      var ref := Refs(ty)[i];
      RenameAllIndex(Refs(ty), names, i);
      if ref in names {
        MappedKeepsMeaning(entries, names, ref);
      } else {
        UnmappedKeepsMeaning(entries, names, ref);
      }
    }
  }

  // ---- route types ----

  lemma {:induction false} RouteEntriesDotFree(definitions: seq<TsDefinition>)
    requires forall d :: d in definitions ==> '.' !in d.fullPath
    ensures EntriesDotFree(Entries(definitions, StripRoutePrefix))
  {
    if definitions != [] {
      assert definitions[0] in definitions;
      StrippedIsDotFree(definitions[0].fullPath);
      RouteEntriesDotFree(definitions[1..]);
    }
  }

  /** For definitions with ordinary Rust paths, equal references mean equal stripped paths, and conversely. */
  lemma {:induction false} RouteReferencesExact(definitions: seq<TsDefinition>, i: nat, j: nat)
    requires forall d :: d in definitions ==> '.' !in d.fullPath
    requires i < |definitions| && j < |definitions|
    ensures var entries := Entries(definitions, StripRoutePrefix);
            Reference(NameIn(entries, entries[i])) == Reference(NameIn(entries, entries[j])) <==>
            StripRoutePrefix(definitions[i].fullPath) == StripRoutePrefix(definitions[j].fullPath)
  {
    var entries := Entries(definitions, StripRoutePrefix);
    RouteEntriesDotFree(definitions);
    EntriesIndex(definitions, StripRoutePrefix, i);
    EntriesIndex(definitions, StripRoutePrefix, j);
    ReferencesExact(entries, entries[i], entries[j]);
  }
}
