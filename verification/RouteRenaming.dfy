/** The renaming of one page's definitions from end to end, and where it goes wrong. */
module RouteRenaming {
  import opened TypeNames
  import opened TypeRenaming

  ghost predicate PathsAreDotFree(definitions: seq<TsDefinition>)
  {
    forall d :: d in definitions ==> '.' !in d.fullPath
  }

  /** The definitions a reference stands for before renaming: those with that full path. */
  function DefinedAs(definitions: seq<TsDefinition>, fullPath: string): (targets: set<nat>)
  {
    set i: nat | i < |definitions| && definitions[i].fullPath == fullPath
  }

  /** The definitions a reader of the output finds under a reference: those with that namespace and name. */
  function FoundAs(renamed: seq<TsDefinition>, reference: string): (targets: set<nat>)
  {
    set i: nat | i < |renamed| && Reference(renamed[i].name) == reference
  }

  lemma {:induction false} DefinedIsMeaning(definitions: seq<TsDefinition>, fullPath: string)
    ensures DefinedAs(definitions, fullPath) == Meaning(Entries(definitions, StripRoutePrefix), fullPath)
  {
    forall i: nat | i < |definitions|
      ensures Entries(definitions, StripRoutePrefix)[i].fullPath == definitions[i].fullPath
    {
      EntriesIndex(definitions, StripRoutePrefix, i);
    }
  }

  lemma {:induction false} FoundIsRenamedMeaning(definitions: seq<TsDefinition>, renamed: seq<TsDefinition>,
                                                 names: NameMap, reference: string)
    requires |renamed| == |definitions|
    requires forall i :: 0 <= i < |definitions| ==> IsRenamed(definitions[i], renamed[i], names)
    ensures FoundAs(renamed, reference) == RenamedMeaning(Entries(definitions, StripRoutePrefix), names, reference)
  {
    forall i: nat | i < |definitions|
      ensures Entries(definitions, StripRoutePrefix)[i].fullPath == definitions[i].fullPath
      ensures definitions[i].fullPath in names && renamed[i].name == names[definitions[i].fullPath]
    {
      EntriesIndex(definitions, StripRoutePrefix, i);
      assert IsRenamed(definitions[i], renamed[i], names);
    }
  }

  /**
   One definition before and after: path and shape are kept, and each reference in its type finds exactly the
   definitions it stood for, if and only if it is safe.
   */
  ghost predicate IsKept(definitions: seq<TsDefinition>, renamed: seq<TsDefinition>, d: TsDefinition, d': TsDefinition)
  {
    && d'.fullPath == d.fullPath && SameShape(d.ty, d'.ty) && |Refs(d'.ty)| == |Refs(d.ty)|
    && forall j :: 0 <= j < |Refs(d.ty)| ==>
         (FoundAs(renamed, Refs(d'.ty)[j]) == DefinedAs(definitions, Refs(d.ty)[j]) <==>
          IsSafe(Entries(definitions, StripRoutePrefix), Refs(d.ty)[j]))
  }

  lemma {:induction false} RenamedIsKept(definitions: seq<TsDefinition>,
                                         renamed: seq<TsDefinition>, names: NameMap, i: nat)
    requires PathsAreDotFree(definitions) && i < |definitions| == |renamed|
    requires var entries := Entries(definitions, StripRoutePrefix); Resolves(names, entries, Naming(entries))
    requires forall k :: 0 <= k < |definitions| ==> IsRenamed(definitions[k], renamed[k], names)
    ensures IsKept(definitions, renamed, definitions[i], renamed[i])
  {
    var entries, d, d' := Entries(definitions, StripRoutePrefix), definitions[i], renamed[i];
    assert IsRenamed(d, d', names);
    RouteEntriesDotFree(definitions);
    EntriesMembers(definitions, StripRoutePrefix);
    TreeKeepsMeaning(d.ty, entries, names);
    forall j | 0 <= j < |Refs(d.ty)|
      ensures FoundAs(renamed, Refs(d'.ty)[j]) == DefinedAs(definitions, Refs(d.ty)[j]) <==>
              IsSafe(entries, Refs(d.ty)[j])
    {
      FoundIsRenamedMeaning(definitions, renamed, names, Refs(d'.ty)[j]);
      DefinedIsMeaning(definitions, Refs(d.ty)[j]);
    }
  }

  method RenameRouteDefinitions(definitions: seq<TsDefinition>) returns (renamed: seq<TsDefinition>)
    requires PathsAreDotFree(definitions)
    ensures |renamed| == |definitions|
    ensures forall i :: 0 <= i < |definitions| ==> IsKept(definitions, renamed, definitions[i], renamed[i])
  {
    var names;
    names, renamed := RenameDefinitions(definitions, StripRoutePrefix);
    forall i | 0 <= i < |definitions|
      ensures IsKept(definitions, renamed, definitions[i], renamed[i])
    {
      RenamedIsKept(definitions, renamed, names, i);
    }
  }

  // ---- unsafe references ----

  /** Two pages that each declare a type of this name, so that one's references find the other's definition too. */
  lemma SameNameInTwoPages(page: string, other: string, typeName: string)
    returns (definitions: seq<TsDefinition>)
    requires ':' !in page && ':' !in other && ':' !in typeName && page != other
    ensures |definitions| == 2 && definitions[0].fullPath == PagePath(page, typeName)
    ensures definitions[1].ty == Ref(PagePath(page, typeName))
    ensures !IsSafe(Entries(definitions, StripRoutePrefix), PagePath(page, typeName))
  {
    var none := QualifiedName([], "");
    var path, clash := PagePath(page, typeName), PagePath(other, typeName);
    definitions := [TsDefinition(path, none, Primitive("number")), TsDefinition(clash, none, Ref(path))];
    var entries := Entries(definitions, StripRoutePrefix);
    PagesClash(page, other, typeName);
    EntriesIndex(definitions, StripRoutePrefix, 0);
    EntriesIndex(definitions, StripRoutePrefix, 1);
    assert entries[0] in entries && entries[1] in entries;
    assert !Apart(entries, entries[0]);
  }

  lemma {:induction false} EntryOfDefinition(definitions: seq<TsDefinition>, i: nat)
    requires i < |definitions|
    ensures Entry(definitions[i].fullPath, StripRoutePrefix(definitions[i].fullPath))
            in Entries(definitions, StripRoutePrefix)
  {
    EntriesIndex(definitions, StripRoutePrefix, i);
    assert Entries(definitions, StripRoutePrefix)[i] in Entries(definitions, StripRoutePrefix);
  }

  /** A reference to something that is no definition is unsafe if and only if some definition captures it. */
  lemma {:induction false} UnmappedIsSafe(definitions: seq<TsDefinition>, ref: string)
    requires DefinedAs(definitions, ref) == {}
    ensures var entries := Entries(definitions, StripRoutePrefix); IsSafe(entries, ref) <==> !IsCaptured(entries, ref)
  {
    var entries := Entries(definitions, StripRoutePrefix);
    DefinedIsMeaning(definitions, ref);
    forall e | e in entries
      ensures e.fullPath != ref
    {
      var k :| 0 <= k < |entries| && entries[k] == e;
      assert k !in Meaning(entries, ref);
    }
  }

  /** A reference that is a path of several components is never captured. */
  lemma {:induction false} PathsAreNotCaptured(definitions: seq<TsDefinition>, ref: string)
    requires '.' !in ref && HasSeparator(ref)
    ensures !IsCaptured(Entries(definitions, StripRoutePrefix), ref)
  {
    var entries := Entries(definitions, StripRoutePrefix);
    EntriesMembers(definitions, StripRoutePrefix);
    var group := Group(entries, ref);
    assert |group| == 0 || group[0] in group;
    GroupMembers(entries, ref);
    forall e | e in entries
      ensures e.path.typeName != ref
    {
      StripKeepsLast(e.fullPath);
      ComponentsAreWhole(e.fullPath);
    }
  }

  lemma PagePathIsLonger(page: string, typeName: string)
    requires ':' !in page && ':' !in typeName
    ensures PagePath(page, typeName) != typeName
  {
    PagePathComponents(page, typeName);
    ComponentsPlain(typeName, "");
    assert typeName + "" == typeName;
  }

  /** A page that declares a type, and refers to something else by the bare name of that type. */
  lemma BareNameIsCaptured(page: string, typeName: string) returns (definitions: seq<TsDefinition>)
    requires ':' !in page && ':' !in typeName && '.' !in typeName
    ensures |definitions| == 1 && definitions[0].fullPath == PagePath(page, typeName)
    ensures definitions[0].ty == Ref(typeName) && DefinedAs(definitions, typeName) == {}
    ensures !IsSafe(Entries(definitions, StripRoutePrefix), typeName)
  {
    definitions := [TsDefinition(PagePath(page, typeName), QualifiedName([], ""), Ref(typeName))];
    PagePathComponents(page, typeName);
    PagePathIsLonger(page, typeName);
    EntryOfDefinition(definitions, 0);
    UnmappedIsSafe(definitions, typeName);
  }

  /** The only definition of a name, wherever it is declared, takes the bare name and captures it. */
  lemma SoleDefinitionCaptures(definition: TsDefinition, ref: string)
    requires '.' !in ref && StripRoutePrefix(definition.fullPath).typeName == ref && definition.fullPath != ref
    ensures !IsSafe(Entries([definition], StripRoutePrefix), ref)
  {
    var entries := Entries([definition], StripRoutePrefix);
    EntriesIndex([definition], StripRoutePrefix, 0);
    assert entries == [entries[0]];
    GroupOfOne(entries[0]);
    UnmappedIsSafe([definition], ref);
  }

  lemma GroupOfOne(e: Entry)
    ensures |Group([e], e.path.typeName)| == 1
  {
    assert [e][1..] == [];
  }

  /** Such a definition below a page, at any depth. */
  lemma NestedNameIsCaptured(page: string, inner: string, typeName: string)
    returns (definition: TsDefinition)
    requires ':' !in page && ':' !in inner && ':' !in typeName && '.' !in typeName
    ensures Components(definition.fullPath) == ["pages"] + [page] + [inner] + [typeName]
    ensures StripRoutePrefix(definition.fullPath) == QualifiedName([inner], typeName)
    ensures definition.ty == Ref(typeName) && !IsSafe(Entries([definition], StripRoutePrefix), typeName)
  {
    var parts := ["pages"] + [page] + [inner] + [typeName];
    definition := TsDefinition(Joined(parts), QualifiedName([], ""), Ref(typeName));
    ComponentsOfJoined(parts);
    assert parts == [] + ["pages", page] + ([inner] + [typeName]);
    StripsToRest(definition.fullPath, [], page, [inner] + [typeName]);
    var path := StripRoutePrefix(definition.fullPath);
    assert Parts(path) == [inner] + [typeName] && Parts(path)[|path.namespace|] == path.typeName;
    assert path.namespace == Parts(path)[..1] == [inner];
    ComponentsPlain(typeName, "");
    assert typeName + "" == typeName && |Components(typeName)| == 1;
    SoleDefinitionCaptures(definition, typeName);
  }
}
