/** What the extractor's visit promises: the export and include policy, the
    public-only rule, append-only methods, the getter/setter merge with its
    doc-fragment index rule, and the invariant that every level of the result
    holds at most one property entry per name. */
module ExtractorProperties {
  import opened Extractor

  function MethodsOf(o: Obj): seq<MethodEntry> {
    if MethodsKey in o.vals && o.vals[MethodsKey].Methods? then o.vals[MethodsKey].methods else []
  }

  function PropertiesOf(o: Obj): seq<PropertyEntry> {
    if PropertiesKey in o.vals && o.vals[PropertiesKey].Properties? then o.vals[PropertiesKey].properties else []
  }

  /** The `methods` and `properties` keys, where present, hold lists (no
      entity was stored under either name). */
  predicate ListsOrAbsent(o: Obj) {
    && (MethodsKey in o.vals ==> o.vals[MethodsKey].Methods?)
    && (PropertiesKey in o.vals ==> o.vals[PropertiesKey].Properties?)
  }

  predicate UniqueNames(ps: seq<PropertyEntry>) {
    forall i, j :: 0 <= i < j < |ps| ==> ps[i].name != ps[j].name
  }

  /** At every level of the dictionary, at most one property entry per name. */
  ghost predicate AllUnique(o: Obj)
    decreases o
  {
    && UniqueNames(PropertiesOf(o))
    && forall k :: k in o.vals && o.vals[k].Entity? ==> AllUnique(o.vals[k].members)
  }

  function NameSet(ps: seq<PropertyEntry>): set<string> {
    set i | 0 <= i < |ps| :: ps[i].name
  }

  /** Leaves the target exactly as it was: filtered out, or not a declaration
      kind the extractor handles. */
  predicate Ignored(n: Node, filters: seq<Filter>) {
    || (IsEntity(n) && !(IsExported(n) && Included(n, filters)))
    || ((n.kind == Method || IsPropertyLike(n)) && !IsPublic(n))
    || n.kind == Other
  }

  function Kept(ns: seq<Node>, filters: seq<Filter>): seq<Node> {
    if ns == [] then []
    else (if Ignored(ns[0], filters) then [] else [ns[0]]) + Kept(ns[1..], filters)
  }

  function PublicMethodCount(ns: seq<Node>): nat {
    if ns == [] then 0
    else (if ns[0].kind == Method && IsPublic(ns[0]) then 1 else 0) + PublicMethodCount(ns[1..])
  }

  function PublicPropertyNames(ns: seq<Node>): set<string> {
    if ns == [] then {}
    else (if IsPropertyLike(ns[0]) && IsPublic(ns[0]) then {ns[0].name} else {}) + PublicPropertyNames(ns[1..])
  }

  /** Statements of the files `extract` does not skip, in file order. */
  function Statements(files: seq<SourceFile>): seq<Node> {
    if files == [] then []
    else (if files[0].isDeclarationFile then [] else files[0].statements) + Statements(files[1..])
  }

  // ---------------------------------------------------------------------------
  // Modifier tests

  /** `isExported` compares the masked flags with 1; as the export flag is bit
      0, that is the test of the bit. `isPublic` holds exactly when neither the
      private nor the protected bit is set, and `isWritable` when the readonly
      bit is clear. Each test reads only its own bits: setting any of the other
      tested bits changes none of them. */
  lemma ModifierTests(n: Node, extra: bv32)
    ensures IsExported(n) <==> n.modifierFlags & ExportFlag != 0
    ensures IsPublic(n) <==> n.modifierFlags & (PrivateFlag | ProtectedFlag) == 0
    ensures IsWritable(n) <==> n.modifierFlags & ReadonlyFlag != ReadonlyFlag
    ensures var m := n.(modifierFlags := n.modifierFlags | (extra & (PrivateFlag | ProtectedFlag | ReadonlyFlag)));
            IsExported(m) == IsExported(n)
    ensures var m := n.(modifierFlags := n.modifierFlags | (extra & (ExportFlag | ReadonlyFlag)));
            IsPublic(m) == IsPublic(n)
    ensures var m := n.(modifierFlags := n.modifierFlags | (extra & (ExportFlag | PrivateFlag | ProtectedFlag)));
            IsWritable(m) == IsWritable(n)
  {
  }

  // ---------------------------------------------------------------------------
  // Modules and classes

  /** A module or class changes the target only when it is exported and passes
      the include filters (modules always pass); then its name holds a fresh
      entity whose members are its children visited into an empty dictionary,
      and no other key changes. */
  lemma EntityVisit(n: Node, t: Obj, filters: seq<Filter>)
    requires ValidObj(t) && IsEntity(n)
    ensures var v := VisitSpec(n, t, filters);
            var inner := VisitAllSpec(n.children, EmptyObj, filters);
            if IsExported(n) && (n.kind == Module || |filters| == 0
                              || exists i :: 0 <= i < |filters| && Matches(filters[i], n.name))
            then
              && n.name in v.target.vals
              && v.target.vals[n.name] == Entity(n.docs, inner.target)
              && v.threw == inner.threw
              && v.target.keys == (if n.name in t.vals then t.keys else t.keys + [n.name])
              && (forall k :: k in t.vals && k != n.name ==> k in v.target.vals && v.target.vals[k] == t.vals[k])
            else v == Visited(t, false)
  {
  }

  /** Declarations of no handled kind leave a walk's target as it was. */
  lemma {:induction false} OthersLeaveNoTrace(ns: seq<Node>, t: Obj, filters: seq<Filter>)
    requires ValidObj(t)
    requires forall i :: 0 <= i < |ns| ==> ns[i].kind == Other
    ensures VisitAllSpec(ns, t, filters) == Visited(t, false)
  {
    if ns != [] {
      OthersLeaveNoTrace(ns[1..], t, filters);
    }
  }

  /** The compiler presents a module's body as one `ModuleBlock` child, a kind
      `visit` does not handle: an exported module is stored with its docs and
      an empty `members` dictionary, whatever the body declares. */
  lemma ModuleBodyGivesNoMembers(n: Node, t: Obj, filters: seq<Filter>)
    requires ValidObj(t) && n.kind == Module && IsExported(n)
    requires forall i :: 0 <= i < |n.children| ==> n.children[i].kind == Other
    ensures var v := VisitSpec(n, t, filters);
            !v.threw && n.name in v.target.vals && v.target.vals[n.name] == Entity(n.docs, EmptyObj)
  {
    OthersLeaveNoTrace(n.children, EmptyObj, filters);
  }

  /** With no include filters, every exported class is kept; a class that is
      not exported never is, whatever the filters say. */
  lemma ClassFilterPolicy(n: Node, t: Obj, filters: seq<Filter>)
    requires ValidObj(t) && n.kind == Class
    ensures !IsExported(n) ==> VisitSpec(n, t, filters) == Visited(t, false)
    ensures IsExported(n) && filters == [] ==> n.name in VisitSpec(n, t, filters).target.vals
    ensures IsExported(n) && (forall i :: 0 <= i < |filters| ==> !Matches(filters[i], n.name)) && filters != []
            ==> VisitSpec(n, t, filters) == Visited(t, false)
  {
  }

  // ---------------------------------------------------------------------------
  // Methods

  /** A private or protected method, property or accessor leaves the target as
      it was: not even an empty list is created. */
  lemma HiddenMemberIgnored(n: Node, t: Obj, filters: seq<Filter>)
    requires ValidObj(t) && (n.kind == Method || IsPropertyLike(n)) && !IsPublic(n)
    ensures VisitSpec(n, t, filters) == Visited(t, false)
  {
  }

  /** A public method appends exactly one entry to `methods` (creating the list
      if needed): one signature per call signature, in order, each with the
      method's name and docs and that signature's return type and parameters.
      Nothing else changes. If `methods` names an entity, the push throws. */
  lemma PublicMethodAppends(n: Node, t: Obj, filters: seq<Filter>)
    requires ValidObj(t) && n.kind == Method && IsPublic(n)
    ensures var v := VisitSpec(n, t, filters);
            if MethodsKey in t.vals && !t.vals[MethodsKey].Methods? then v == Visited(t, true)
            else
              && !v.threw
              && MethodsKey in v.target.vals && v.target.vals[MethodsKey].Methods?
              && |MethodsOf(v.target)| == |MethodsOf(t)| + 1
              && MethodsOf(v.target)[..|MethodsOf(t)|] == MethodsOf(t)
              && (var e := MethodsOf(v.target)[|MethodsOf(t)|];
                  && |e.signatures| == |n.callSignatures|
                  && (forall i :: 0 <= i < |e.signatures| ==>
                        && e.signatures[i].name == n.name
                        && e.signatures[i].docs == n.docs
                        && e.signatures[i].returnType == n.callSignatures[i].returnType
                        && e.signatures[i].params == n.callSignatures[i].params))
              && (forall k :: k in t.vals && k != MethodsKey ==> k in v.target.vals && v.target.vals[k] == t.vals[k])
              && (forall k :: k in v.target.vals && k != MethodsKey ==> k in t.vals)
  {
    var v := VisitSpec(n, t, filters);
    if !(MethodsKey in t.vals && !t.vals[MethodsKey].Methods?) {
      assert MethodsOf(v.target) == MethodsOf(t) + [MethodEntryOf(n)];
    }
  }

  // ---------------------------------------------------------------------------
  // Properties and accessors

  /** The flag and doc update on a found or created entry: a plain property or
      a setter sets `set` to the writability and pushes the selected doc onto
      `docs.set`; a plain property or a getter sets `get` and pushes it onto
      `docs.get`; a missing fragment pushes nothing. Name and type never change. */
  lemma AccessedEffect(p: PropertyEntry, n: Node, doc: Option<Doc>)
    requires IsPropertyLike(n)
    ensures var q := Accessed(p, n, doc);
            var pushed := if doc.Some? then [doc.value] else [];
            && q.name == p.name && q.typeName == p.typeName
            && (if n.kind == PropertyDecl || n.kind == SetAccessor
                then q.canSet == Some(IsWritable(n)) && q.setDocs == p.setDocs + pushed
                else q.canSet == p.canSet && q.setDocs == p.setDocs)
            && (if n.kind == PropertyDecl || n.kind == GetAccessor
                then q.canGet == Some(true) && q.getDocs == p.getDocs + pushed
                else q.canGet == p.canGet && q.getDocs == p.getDocs)
  {
  }

  /** A public property or accessor reuses the entry with its name, or else
      appends `{name, type, docs: {set: [], get: []}}`. The creating visit
      selects text fragment 0, a visit to an existing entry text fragment 1.
      Every other entry is left as it was, and so is every other key. If
      `properties` holds an entity, `find` throws and the target is as it was. */
  lemma PropertyVisitMerges(n: Node, t: Obj, filters: seq<Filter>)
    requires ValidObj(t) && IsPropertyLike(n) && IsPublic(n)
    ensures var v := VisitSpec(n, t, filters);
            var ps := PropertiesOf(t);
            var qs := PropertiesOf(v.target);
            var texts := TextDocs(n.docs);
            if PropertiesKey in t.vals && !t.vals[PropertiesKey].Properties? then v == Visited(t, true)
            else
              && !v.threw
              && PropertiesKey in v.target.vals && v.target.vals[PropertiesKey].Properties?
              && (forall k :: k in t.vals && k != PropertiesKey ==> k in v.target.vals && v.target.vals[k] == t.vals[k])
              && (forall k :: k in v.target.vals && k != PropertiesKey ==> k in t.vals)
              && (if exists i :: 0 <= i < |ps| && ps[i].name == n.name
                  then
                    var j := FindByName(ps, n.name).value;
                    && |qs| == |ps|
                    && qs[j] == Accessed(ps[j], n, DocAt(texts, 1))
                    && (forall i :: 0 <= i < |ps| && i != j ==> qs[i] == ps[i])
                  else
                    && |qs| == |ps| + 1
                    && qs[..|ps|] == ps
                    && qs[|ps|] == Accessed(PropertyEntry(n.name, n.typeName, None, None, [], []), n, DocAt(texts, 0)))
  {
    PublicPropertyVisit(n, t, filters);
    if !(PropertiesKey in t.vals && !t.vals[PropertiesKey].Properties?) {
      var v := VisitProperty(n, t);
      assert PropertiesOf(v.target) == Merged(PropertiesOf(t), n);
    }
  }

  /** `docs.filter(...)` keeps order and repeats: filtering a concatenation is
      concatenating the filtered parts. With `TextDocsSingle` this fixes the
      result completely. */
  lemma {:induction false} TextDocsAppend(a: seq<Doc>, b: seq<Doc>)
    ensures TextDocs(a + b) == TextDocs(a) + TextDocs(b)
  {
    if a == [] {
      assert a + b == b;
    } else {
      assert (a + b)[0] == a[0];
      assert (a + b)[1..] == a[1..] + b;
      TextDocsAppend(a[1..], b);
    }
  }

  lemma TextDocsSingle(d: Doc)
    ensures TextDocs([d]) == if d.kind == "text" then [d] else []
  {
  }

  /** Text fragment `j` is the text fragment of `docs` with exactly `j` text
      fragments before it: the 0/1 rule picks the first and the second
      comment in their order. */
  lemma TextDocsSelects(docs: seq<Doc>, i: nat)
    requires i < |docs| && docs[i].kind == "text"
    ensures DocAt(TextDocs(docs), |TextDocs(docs[..i])|) == Some(docs[i])
  {
    assert docs == docs[..i] + [docs[i]] + docs[i + 1..];
    TextDocsAppend(docs[..i] + [docs[i]], docs[i + 1..]);
    TextDocsAppend(docs[..i], [docs[i]]);
    TextDocsSingle(docs[i]);
  }

  lemma {:induction false} NameSetCons(ps: seq<PropertyEntry>)
    requires ps != []
    ensures NameSet(ps) == {ps[0].name} + NameSet(ps[1..])
  {
    forall x | x in NameSet(ps) ensures x in {ps[0].name} + NameSet(ps[1..]) {
      var i :| 0 <= i < |ps| && ps[i].name == x;
      if i > 0 {
        assert ps[1..][i - 1].name == x;
      }
    }
    forall x | x in NameSet(ps[1..]) ensures x in NameSet(ps) {
      var i :| 0 <= i < |ps[1..]| && ps[1..][i].name == x;
      assert ps[i + 1].name == x;
    }
  }

  /** Distinct names: as many names as entries. */
  lemma {:induction false} UniqueNamesCount(ps: seq<PropertyEntry>)
    requires UniqueNames(ps)
    ensures |NameSet(ps)| == |ps|
  {
    if ps != [] {
      NameSetCons(ps);
      UniqueNamesCount(ps[1..]);
      forall i | 0 <= i < |ps[1..]| ensures ps[1..][i].name != ps[0].name {
        assert ps[1..][i] == ps[i + 1];
      }
    }
  }

  /** The merge keeps names unique and adds exactly the visited name. */
  lemma MergedNames(ps: seq<PropertyEntry>, n: Node)
    ensures UniqueNames(ps) ==> UniqueNames(Merged(ps, n))
    ensures NameSet(Merged(ps, n)) == NameSet(ps) + {n.name}
  {
    var qs := Merged(ps, n);
    match FindByName(ps, n.name)
    case Some(j) =>
      assert |qs| == |ps| && forall i :: 0 <= i < |ps| ==> qs[i].name == ps[i].name;
    case None =>
      assert qs[..|ps|] == ps && qs[|ps|].name == n.name;
      assert forall i :: 0 <= i < |ps| ==> qs[i].name == ps[i].name;
      assert NameSet(qs) == NameSet(ps) + {n.name} by {
        forall x | x in NameSet(ps) + {n.name} ensures x in NameSet(qs) {
          if x == n.name {
            assert qs[|ps|].name == x;
          } else {
            var i :| 0 <= i < |ps| && ps[i].name == x;
            assert qs[i].name == x;
          }
        }
      }
  }

  /** Storing one value keeps the invariant when the value itself keeps it. */
  lemma StoreKeepsNamesUnique(t: Obj, k: string, slot: Slot)
    requires ValidObj(t) && AllUnique(t)
    requires slot.Entity? ==> AllUnique(slot.members)
    requires slot.Properties? ==> UniqueNames(slot.properties)
    ensures AllUnique(WithKey(t, k, slot))
  {
    var r := WithKey(t, k, slot);
    assert k != PropertiesKey ==> PropertiesOf(r) == PropertiesOf(t);
    forall k' | k' in r.vals && r.vals[k'].Entity? ensures AllUnique(r.vals[k'].members) {
      if k' != k {
        assert r.vals[k'] == t.vals[k'];
      }
    }
  }

  lemma MethodVisitKeepsNamesUnique(n: Node, t: Obj)
    requires ValidObj(t) && AllUnique(t)
    ensures AllUnique(VisitMethod(n, t).target)
  {
    var t1 := if MethodsKey in t.vals then t else WithKey(t, MethodsKey, Methods([]));
    StoreKeepsNamesUnique(t, MethodsKey, Methods([]));
    if t1.vals[MethodsKey].Methods? {
      StoreKeepsNamesUnique(t1, MethodsKey, Methods(t1.vals[MethodsKey].methods + [MethodEntryOf(n)]));
    }
  }

  lemma PropertyVisitKeepsNamesUnique(n: Node, t: Obj)
    requires ValidObj(t) && AllUnique(t)
    ensures AllUnique(VisitProperty(n, t).target)
  {
    var t1 := if PropertiesKey in t.vals then t else WithKey(t, PropertiesKey, Properties([]));
    StoreKeepsNamesUnique(t, PropertiesKey, Properties([]));
    if t1.vals[PropertiesKey].Properties? {
      var ps := t1.vals[PropertiesKey].properties;
      assert ps == PropertiesOf(t1);
      MergedNames(ps, n);
      StoreKeepsNamesUnique(t1, PropertiesKey, Properties(Merged(ps, n)));
    }
  }

  /** Any single visit keeps at most one property entry per name, at every
      level of the dictionary. */
  lemma {:induction false} VisitKeepsNamesUnique(n: Node, t: Obj, filters: seq<Filter>)
    requires ValidObj(t) && AllUnique(t)
    ensures AllUnique(VisitSpec(n, t, filters).target)
    decreases n, 1
  {
    if IsEntity(n) {
      if IsExported(n) && Included(n, filters) {
        var inner := VisitAllSpec(n.children, EmptyObj, filters);
        VisitAllKeepsNamesUnique(n.children, EmptyObj, filters);
        StoreKeepsNamesUnique(t, n.name, Entity(n.docs, inner.target));
      }
    } else if n.kind == Method && IsPublic(n) {
      PublicMethodVisit(n, t, filters);
      MethodVisitKeepsNamesUnique(n, t);
    } else if IsPropertyLike(n) && IsPublic(n) {
      PublicPropertyVisit(n, t, filters);
      PropertyVisitKeepsNamesUnique(n, t);
    }
  }

  lemma {:induction false} VisitAllKeepsNamesUnique(ns: seq<Node>, t: Obj, filters: seq<Filter>)
    requires ValidObj(t) && AllUnique(t)
    ensures AllUnique(VisitAllSpec(ns, t, filters).target)
    decreases ns, 0
  {
    if ns != [] {
      VisitKeepsNamesUnique(ns[0], t, filters);
      var first := VisitSpec(ns[0], t, filters);
      if !first.threw {
        VisitAllKeepsNamesUnique(ns[1..], first.target, filters);
      }
    }
  }

  /** The dictionary `extract` returns has, at every level, at most one
      property entry per name: getter and setter of one name share an entry. */
  lemma {:induction false} ExtractKeepsNamesUnique(files: seq<SourceFile>, t: Obj, filters: seq<Filter>)
    requires ValidObj(t) && AllUnique(t)
    ensures AllUnique(VisitFilesSpec(files, t, filters).target)
  {
    if files != [] && !files[0].isDeclarationFile {
      VisitAllKeepsNamesUnique(files[0].statements, t, filters);
      var first := VisitAllSpec(files[0].statements, t, filters);
      if !first.threw {
        ExtractKeepsNamesUnique(files[1..], first.target, filters);
      }
    } else if files != [] {
      ExtractKeepsNamesUnique(files[1..], t, filters);
    }
  }

  // ---------------------------------------------------------------------------
  // Whole walks

  /** Filtered-out declarations and their subtrees leave no trace: walking the
      list gives what walking only the kept declarations gives. */
  lemma {:induction false} IgnoredLeaveNoTrace(ns: seq<Node>, t: Obj, filters: seq<Filter>)
    requires ValidObj(t)
    ensures VisitAllSpec(ns, t, filters) == VisitAllSpec(Kept(ns, filters), t, filters)
  {
    if ns != [] {
      if Ignored(ns[0], filters) {
        assert VisitSpec(ns[0], t, filters) == Visited(t, false);
        assert Kept(ns, filters) == Kept(ns[1..], filters);
        IgnoredLeaveNoTrace(ns[1..], t, filters);
      } else {
        var first := VisitSpec(ns[0], t, filters);
        assert Kept(ns, filters)[0] == ns[0];
        assert Kept(ns, filters)[1..] == Kept(ns[1..], filters);
        if !first.threw {
          IgnoredLeaveNoTrace(ns[1..], first.target, filters);
        }
      }
    }
  }

  /** Walking two lists one after the other is walking their concatenation. */
  lemma {:induction false} VisitAllAppend(a: seq<Node>, b: seq<Node>, t: Obj, filters: seq<Filter>)
    requires ValidObj(t)
    ensures VisitAllSpec(a + b, t, filters)
            == var va := VisitAllSpec(a, t, filters);
               if va.threw then va else VisitAllSpec(b, va.target, filters)
  {
    if a != [] {
      assert (a + b)[0] == a[0] && (a + b)[1..] == a[1..] + b;
      var first := VisitSpec(a[0], t, filters);
      if !first.threw {
        VisitAllAppend(a[1..], b, first.target, filters);
      }
    } else {
      assert a + b == b;
    }
  }

  /** `extract` is one walk over the statements of all non-declaration files,
      in file order, into one dictionary. */
  lemma {:induction false} FilesAreOneWalk(files: seq<SourceFile>, t: Obj, filters: seq<Filter>)
    requires ValidObj(t)
    ensures VisitFilesSpec(files, t, filters) == VisitAllSpec(Statements(files), t, filters)
  {
    if files != [] {
      if files[0].isDeclarationFile {
        FilesAreOneWalk(files[1..], t, filters);
        assert Statements(files) == Statements(files[1..]);
      } else {
        VisitAllAppend(files[0].statements, Statements(files[1..]), t, filters);
        var first := VisitAllSpec(files[0].statements, t, filters);
        if !first.threw {
          FilesAreOneWalk(files[1..], first.target, filters);
        }
      }
    }
  }

  /** One member declaration: the counting step of `MemberWalkCounts`. */
  lemma MemberStepCounts(n: Node, t: Obj, filters: seq<Filter>)
    requires ValidObj(t) && ListsOrAbsent(t) && !IsEntity(n)
    ensures var v := VisitSpec(n, t, filters);
            && !v.threw
            && ListsOrAbsent(v.target)
            && |MethodsOf(v.target)| == |MethodsOf(t)| + PublicMethodCount([n])
            && NameSet(PropertiesOf(v.target)) == NameSet(PropertiesOf(t)) + PublicPropertyNames([n])
  {
    assert PublicMethodCount([n]) == if n.kind == Method && IsPublic(n) then 1 else 0;
    assert PublicPropertyNames([n]) == if IsPropertyLike(n) && IsPublic(n) then {n.name} else {};
    if n.kind == Method && IsPublic(n) {
      PublicMethodVisit(n, t, filters);
      MethodStep(n, t);
    } else if IsPropertyLike(n) && IsPublic(n) {
      PublicPropertyVisit(n, t, filters);
      PropertyStep(n, t);
    } else {
      assert VisitSpec(n, t, filters) == Visited(t, false);
    }
  }

  lemma MethodStep(n: Node, t: Obj)
    requires ValidObj(t) && ListsOrAbsent(t)
    ensures var v := VisitMethod(n, t);
            && !v.threw
            && ListsOrAbsent(v.target)
            && MethodsOf(v.target) == MethodsOf(t) + [MethodEntryOf(n)]
            && PropertiesOf(v.target) == PropertiesOf(t)
  {
  }

  lemma PropertyStep(n: Node, t: Obj)
    requires ValidObj(t) && ListsOrAbsent(t)
    ensures var v := VisitProperty(n, t);
            && !v.threw
            && ListsOrAbsent(v.target)
            && MethodsOf(v.target) == MethodsOf(t)
            && PropertiesOf(v.target) == Merged(PropertiesOf(t), n)
            && NameSet(PropertiesOf(v.target)) == NameSet(PropertiesOf(t)) + {n.name}
  {
    var t1 := if PropertiesKey in t.vals then t else WithKey(t, PropertiesKey, Properties([]));
    assert PropertiesOf(t1) == PropertiesOf(t);
    MergedNames(PropertiesOf(t), n);
  }

  /** Over declarations that are not modules or classes, a walk never throws
      on a target whose `methods`/`properties` are lists: it adds one method
      entry per public method, and exactly the public property names. */
  lemma {:induction false} MemberWalkCounts(ns: seq<Node>, t: Obj, filters: seq<Filter>)
    requires ValidObj(t) && ListsOrAbsent(t)
    requires forall i :: 0 <= i < |ns| ==> !IsEntity(ns[i])
    ensures var v := VisitAllSpec(ns, t, filters);
            && !v.threw
            && ListsOrAbsent(v.target)
            && |MethodsOf(v.target)| == |MethodsOf(t)| + PublicMethodCount(ns)
            && NameSet(PropertiesOf(v.target)) == NameSet(PropertiesOf(t)) + PublicPropertyNames(ns)
  {
    if ns != [] {
      MemberStepCounts(ns[0], t, filters);
      var first := VisitSpec(ns[0], t, filters);
      MemberWalkCounts(ns[1..], first.target, filters);
    }
  }

  /** An exported, included class whose children are members only gets as many
      method entries as it has public methods, and as many property entries as
      it has distinct public property names (getter and setter merged). */
  lemma ClassMemberCounts(n: Node, t: Obj, filters: seq<Filter>)
    requires ValidObj(t) && n.kind == Class && IsExported(n)
    requires |filters| == 0 || exists i :: 0 <= i < |filters| && Matches(filters[i], n.name)
    requires forall i :: 0 <= i < |n.children| ==> !IsEntity(n.children[i])
    ensures var v := VisitSpec(n, t, filters);
            && !v.threw && n.name in v.target.vals && v.target.vals[n.name].Entity?
            && var m := v.target.vals[n.name].members;
               && |MethodsOf(m)| == PublicMethodCount(n.children)
               && |PropertiesOf(m)| == |PublicPropertyNames(n.children)|
  {
    MemberWalkCounts(n.children, EmptyObj, filters);
    VisitAllKeepsNamesUnique(n.children, EmptyObj, filters);
    var m := VisitAllSpec(n.children, EmptyObj, filters).target;
    UniqueNamesCount(PropertiesOf(m));
    assert NameSet([]) == {};
  }

  /** A name that only the appended entry carries is found at the end. */
  lemma FindAfterAppend(ps: seq<PropertyEntry>, e: PropertyEntry, name: string)
    requires forall i :: 0 <= i < |ps| ==> ps[i].name != name
    requires e.name == name
    ensures FindByName(ps + [e], name) == Some(|ps|)
  {
    assert (ps + [e])[|ps|].name == name;
  }

  /** A getter then a setter of a name not yet in the list: one appended entry,
      typed by the getter, readable, writable unless the setter is read-only,
      with text fragment 0 as the getter's doc and fragment 1 as the setter's. */
  lemma AccessorPairMergesInList(g: Node, s: Node, ps: seq<PropertyEntry>)
    requires g.kind == GetAccessor && s.kind == SetAccessor && g.name == s.name
    requires forall i :: 0 <= i < |ps| ==> ps[i].name != g.name
    ensures Merged(Merged(ps, g), s)
            == ps + [PropertyEntry(g.name, g.typeName, Some(IsWritable(s)), Some(true),
                                   Pushed(DocAt(TextDocs(s.docs), 1)),
                                   Pushed(DocAt(TextDocs(g.docs), 0)))]
  {
    var created := PropertyEntry(g.name, g.typeName, None, Some(true), [], Pushed(DocAt(TextDocs(g.docs), 0)));
    GetterCreates(g, ps);
    SetterCompletes(s, ps, created);
  }

  lemma GetterCreates(g: Node, ps: seq<PropertyEntry>)
    requires g.kind == GetAccessor
    requires forall i :: 0 <= i < |ps| ==> ps[i].name != g.name
    ensures Merged(ps, g)
            == ps + [PropertyEntry(g.name, g.typeName, None, Some(true), [], Pushed(DocAt(TextDocs(g.docs), 0)))]
  {
    var doc := DocAt(TextDocs(g.docs), 0);
    assert FindByName(ps, g.name) == None;
    AccessedEffect(PropertyEntry(g.name, g.typeName, None, None, [], []), g, doc);
    assert [] + Pushed(doc) == Pushed(doc);
  }

  lemma SetterCompletes(s: Node, ps: seq<PropertyEntry>, e: PropertyEntry)
    requires s.kind == SetAccessor && e.name == s.name && e.setDocs == []
    requires forall i :: 0 <= i < |ps| ==> ps[i].name != s.name
    ensures Merged(ps + [e], s)
            == ps + [e.(canSet := Some(IsWritable(s)), setDocs := Pushed(DocAt(TextDocs(s.docs), 1)))]
  {
    FindAfterAppend(ps, e, s.name);
    var q := Accessed(e, s, DocAt(TextDocs(s.docs), 1));
    AccessedEffect(e, s, DocAt(TextDocs(s.docs), 1));
    assert q == e.(canSet := Some(IsWritable(s)), setDocs := Pushed(DocAt(TextDocs(s.docs), 1)));
    assert (ps + [e])[|ps| := q] == ps + [q];
  }

  lemma PublicMethodVisit(n: Node, t: Obj, filters: seq<Filter>)
    requires ValidObj(t) && n.kind == Method && IsPublic(n)
    ensures VisitSpec(n, t, filters) == VisitMethod(n, t)
  {
  }

  lemma PublicPropertyVisit(n: Node, t: Obj, filters: seq<Filter>)
    requires ValidObj(t) && IsPropertyLike(n) && IsPublic(n)
    ensures VisitSpec(n, t, filters) == VisitProperty(n, t)
  {
  }

  lemma TwoStepWalk(a: Node, b: Node, t: Obj, filters: seq<Filter>)
    requires ValidObj(t)
    ensures var first := VisitSpec(a, t, filters);
            VisitAllSpec([a, b], t, filters)
            == if first.threw then first else VisitSpec(b, first.target, filters)
  {
    var first := VisitSpec(a, t, filters);
    assert [a, b][1..] == [b];
    if !first.threw {
      var second := VisitSpec(b, first.target, filters);
      assert [b][1..] == [];
      assert VisitAllSpec([b], first.target, filters) == if second.threw then second else VisitAllSpec([], second.target, filters);
    }
  }

  /** The same pair visited as declarations of a class: one entry, and the
      method list untouched. */
  lemma AccessorPairMerges(g: Node, s: Node, t: Obj, filters: seq<Filter>)
    requires ValidObj(t) && ListsOrAbsent(t)
    requires g.kind == GetAccessor && s.kind == SetAccessor && IsPublic(g) && IsPublic(s)
    requires g.name == s.name
    requires forall i :: 0 <= i < |PropertiesOf(t)| ==> PropertiesOf(t)[i].name != g.name
    ensures var v := VisitAllSpec([g, s], t, filters);
            && !v.threw && ListsOrAbsent(v.target)
            && MethodsOf(v.target) == MethodsOf(t)
            && PropertiesOf(v.target)
               == PropertiesOf(t) + [PropertyEntry(g.name, g.typeName, Some(IsWritable(s)), Some(true),
                                                   Pushed(DocAt(TextDocs(s.docs), 1)),
                                                   Pushed(DocAt(TextDocs(g.docs), 0)))]
  {
    TwoStepWalk(g, s, t, filters);
    PublicPropertyVisit(g, t, filters);
    PropertyStep(g, t);
    var v1 := VisitProperty(g, t);
    PublicPropertyVisit(s, v1.target, filters);
    PropertyStep(s, v1.target);
    AccessorPairMergesInList(g, s, PropertiesOf(t));
  }
}
