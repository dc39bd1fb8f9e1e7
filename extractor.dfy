/** The structural extractor: walks the declarations of the parsed source files
    and builds a nested dictionary, entity name -> {docs, members}, where
    `members` holds a `methods` list and a `properties` list.

    The TypeScript compiler is not modelled: every declaration arrives as a
    `Node` that already carries what the type checker would resolve for it
    (name, kind, modifier flags, type string, documentation fragments, call
    signatures and child declarations). */
module Extractor {

  datatype Option<T> = None | Some(value: T)

  /** A documentation fragment as the checker reports it (`text`, `kind`). */
  datatype Doc = Doc(text: string, kind: string)

  /** What `extractSymbolInfo` yields for a parameter (its opaque raw type
      object is not kept). */
  datatype Param = Param(name: string, typeName: string, docs: seq<Doc>)

  /** One call signature of a method's type: return type string and parameters. */
  datatype CallSignature = CallSignature(returnType: string, params: seq<Param>)

  datatype Kind = Module | Class | Method | PropertyDecl | GetAccessor | SetAccessor | Other

  /** The bits of `ts.ModifierFlags` the extractor tests, with their values in
      the TypeScript 2.x and 3.x compiler API. */
  const ExportFlag: bv32 := 1
  const PrivateFlag: bv32 := 8
  const ProtectedFlag: bv32 := 16
  const ReadonlyFlag: bv32 := 64

  /** A declaration with everything the checker resolves for it;
      `modifierFlags` is what `ts.getCombinedModifierFlags` returns for it. */
  datatype Node = Node(
    kind: Kind,
    name: string,
    modifierFlags: bv32,
    typeName: string,
    docs: seq<Doc>,
    callSignatures: seq<CallSignature>,
    children: seq<Node>)

  datatype SourceFile = SourceFile(isDeclarationFile: bool, statements: seq<Node>)

  /** An include filter: a name compared for equality, or a regular expression
      whose `test` is an opaque predicate. */
  datatype Filter = Exact(name: string) | Pattern(test: string -> bool)

  /** One element of a method entry's `signatures`. */
  datatype Signature = Signature(name: string, returnType: string, params: seq<Param>, docs: seq<Doc>)

  datatype MethodEntry = MethodEntry(signatures: seq<Signature>)

  /** A property entry; `canSet`/`canGet` are the `set`/`get` fields, which
      stay undefined (`None`) until an accessor visit assigns them, and
      `setDocs`/`getDocs` are `docs.set`/`docs.get`. */
  datatype PropertyEntry = PropertyEntry(
    name: string,
    typeName: string,
    canSet: Option<bool>,
    canGet: Option<bool>,
    setDocs: seq<Doc>,
    getDocs: seq<Doc>)

  /** A value stored under a key of a target dictionary. */
  datatype Slot =
    | Entity(docs: seq<Doc>, members: Obj)
    | Methods(methods: seq<MethodEntry>)
    | Properties(properties: seq<PropertyEntry>)

  /** A plain JavaScript object: its keys in insertion order and its values. */
  datatype Obj = Obj(keys: seq<string>, vals: map<string, Slot>)

  /** The state a visit leaves behind, and whether it threw a TypeError. */
  datatype Visited = Visited(target: Obj, threw: bool)

  const MethodsKey := "methods"
  const PropertiesKey := "properties"

  const EmptyObj := Obj([], map[])

  ghost predicate DistinctKeys(keys: seq<string>) {
    forall i, j :: 0 <= i < j < |keys| ==> keys[i] != keys[j]
  }

  /** Keys are listed once each, and exactly the keys that hold a value. */
  ghost predicate ValidObj(o: Obj) {
    && DistinctKeys(o.keys)
    && (forall k :: k in o.vals <==> k in o.keys)
  }

  /** `o[k] = v`: a new key goes to the end of the key order, an existing key
      keeps its place and gets the new value. */
  function WithKey(o: Obj, k: string, v: Slot): (r: Obj)
    requires ValidObj(o)
    ensures ValidObj(r)
    ensures k in r.vals && r.vals[k] == v
    ensures forall k' :: k' != k ==> (k' in r.vals <==> k' in o.vals)
    ensures forall k' :: k' in o.vals && k' != k ==> r.vals[k'] == o.vals[k']
    ensures r.keys == if k in o.vals then o.keys else o.keys + [k]
  {
    Obj(if k in o.vals then o.keys else o.keys + [k], o.vals[k := v])
  }

  // ---------------------------------------------------------------------------
  // Predicates on declarations (isExported, isPublic, isWritable, the filters)

  /** `isExported`: the masked flags compared with 1, not with 0. */
  predicate IsExported(n: Node) {
    n.modifierFlags & ExportFlag == 1
  }

  predicate IsPublic(n: Node) {
    n.modifierFlags & PrivateFlag == 0 && n.modifierFlags & ProtectedFlag == 0
  }

  predicate IsWritable(n: Node) {
    n.modifierFlags & ReadonlyFlag == 0
  }

  predicate IsEntity(n: Node) {
    n.kind == Module || n.kind == Class
  }

  predicate IsPropertyLike(n: Node) {
    n.kind == PropertyDecl || n.kind == GetAccessor || n.kind == SetAccessor
  }

  predicate Matches(f: Filter, name: string) {
    match f
    case Exact(s) => s == name
    case Pattern(test) => test(name)
  }

  /** `includeFilters.some(...)`. */
  function AnyMatches(filters: seq<Filter>, name: string): (b: bool)
    ensures b <==> exists i :: 0 <= i < |filters| && Matches(filters[i], name)
  {
    if filters == [] then false
    else Matches(filters[0], name) || AnyMatches(filters[1..], name)
  }

  /** The include rule for an exported module or class. */
  predicate Included(n: Node, filters: seq<Filter>) {
    n.kind == Module || |filters| == 0 || AnyMatches(filters, n.name)
  }

  /** `docs.filter((d) => d.kind === 'text')`. */
  function TextDocs(docs: seq<Doc>): (r: seq<Doc>)
    ensures |r| <= |docs|
    ensures forall d :: d in r <==> d in docs && d.kind == "text"
  {
    if docs == [] then []
    else if docs[0].kind == "text" then [docs[0]] + TextDocs(docs[1..])
    else TextDocs(docs[1..])
  }

  /** `docs[i]`, which is undefined past the end. */
  function DocAt(docs: seq<Doc>, i: nat): Option<Doc> {
    if i < |docs| then Some(docs[i]) else None
  }

  /** `properties.find((prop) => prop.name === name)`, as an index. */
  function FindByName(ps: seq<PropertyEntry>, name: string): (r: Option<nat>)
    ensures r.None? <==> forall i :: 0 <= i < |ps| ==> ps[i].name != name
    ensures r.Some? ==> r.value < |ps| && ps[r.value].name == name
                        && forall i :: 0 <= i < r.value ==> ps[i].name != name
  {
    if ps == [] then None
    else if ps[0].name == name then Some(0)
    else match FindByName(ps[1..], name)
      case None => None
      case Some(i) => Some(i + 1)
  }

  // ---------------------------------------------------------------------------
  // What one visit does, as functions of the target's old value

  /** The record pushed for a public method: one signature per call signature. */
  function MethodEntryOf(n: Node): MethodEntry {
    MethodEntry(seq(|n.callSignatures|, i requires 0 <= i < |n.callSignatures| =>
      Signature(n.name, n.callSignatures[i].returnType, n.callSignatures[i].params, n.docs)))
  }

  /** What `if (doc) list.push(doc)` adds to a list. */
  function Pushed(doc: Option<Doc>): seq<Doc> {
    if doc.Some? then [doc.value] else []
  }

  /** Sets the `set`/`get` flags of a found or created property entry and
      pushes the selected doc fragment, if there is one. */
  function Accessed(p: PropertyEntry, n: Node, doc: Option<Doc>): PropertyEntry {
    var pushed := Pushed(doc);
    var p1 := if n.kind == PropertyDecl || n.kind == SetAccessor
              then p.(canSet := Some(IsWritable(n)), setDocs := p.setDocs + pushed)
              else p;
    if n.kind == PropertyDecl || n.kind == GetAccessor
    then p1.(canGet := Some(true), getDocs := p1.getDocs + pushed)
    else p1
  }

  /** The property list after a public property or accessor visit. */
  function Merged(ps: seq<PropertyEntry>, n: Node): seq<PropertyEntry> {
    var texts := TextDocs(n.docs);
    match FindByName(ps, n.name)
    case Some(i) => ps[i := Accessed(ps[i], n, DocAt(texts, 1))]
    case None => ps + [Accessed(PropertyEntry(n.name, n.typeName, None, None, [], []), n, DocAt(texts, 0))]
  }

  function VisitMethod(n: Node, t: Obj): Visited
    requires ValidObj(t)
  {
    var t1 := if MethodsKey in t.vals then t else WithKey(t, MethodsKey, Methods([]));
    match t1.vals[MethodsKey]
    case Methods(ms) => Visited(WithKey(t1, MethodsKey, Methods(ms + [MethodEntryOf(n)])), false)
    case _ => Visited(t1, true)
  }

  function VisitProperty(n: Node, t: Obj): Visited
    requires ValidObj(t)
  {
    var t1 := if PropertiesKey in t.vals then t else WithKey(t, PropertiesKey, Properties([]));
    match t1.vals[PropertiesKey]
    case Properties(ps) => Visited(WithKey(t1, PropertiesKey, Properties(Merged(ps, n))), false)
    case _ => Visited(t1, true)
  }

  /** `visit(node, target, opts)`, as a function of the target's old value. */
  function VisitSpec(n: Node, t: Obj, filters: seq<Filter>): (v: Visited)
    requires ValidObj(t)
    ensures ValidObj(v.target)
    decreases n, 1
  {
    match n.kind
    case Module | Class =>
      if !IsExported(n) || !Included(n, filters) then Visited(t, false)
      else
        var inner := VisitAllSpec(n.children, EmptyObj, filters);
        Visited(WithKey(t, n.name, Entity(n.docs, inner.target)), inner.threw)
    case Method =>
      if IsPublic(n) then VisitMethod(n, t) else Visited(t, false)
    case PropertyDecl | GetAccessor | SetAccessor =>
      if IsPublic(n) then VisitProperty(n, t) else Visited(t, false)
    case Other => Visited(t, false)
  }

  /** `ts.forEachChild(..., visit)` over a list of declarations; a TypeError
      stops the walk. */
  function VisitAllSpec(ns: seq<Node>, t: Obj, filters: seq<Filter>): (v: Visited)
    requires ValidObj(t)
    ensures ValidObj(v.target)
    decreases ns, 0
  {
    if ns == [] then Visited(t, false)
    else
      var first := VisitSpec(ns[0], t, filters);
      if first.threw then first else VisitAllSpec(ns[1..], first.target, filters)
  }

  /** The file loop of `extract`: declaration files are skipped. */
  function VisitFilesSpec(files: seq<SourceFile>, t: Obj, filters: seq<Filter>): (v: Visited)
    requires ValidObj(t)
    ensures ValidObj(v.target)
  {
    if files == [] then Visited(t, false)
    else if files[0].isDeclarationFile then VisitFilesSpec(files[1..], t, filters)
    else
      var first := VisitAllSpec(files[0].statements, t, filters);
      if first.threw then first else VisitFilesSpec(files[1..], first.target, filters)
  }

  // ---------------------------------------------------------------------------
  // The mutable dictionary and the visit that updates it in place

  /** A target dictionary that visits update in place. */
  class Dict {
    var keys: seq<string>
    var vals: map<string, Slot>

    ghost predicate Valid()
      reads this
    {
      ValidObj(Obj(keys, vals))
    }

    function Value(): Obj
      reads this
    {
      Obj(keys, vals)
    }

    /** `{}` */
    constructor ()
      ensures Valid() && Value() == EmptyObj
    {
      keys := [];
      vals := map[];
    }

    /** `this[k] = v` */
    method Assign(k: string, v: Slot)
      requires Valid()
      modifies this
      ensures Valid()
      ensures Value() == WithKey(old(Value()), k, v)
    {
      if k !in vals {
        keys := keys + [k];
      }
      vals := vals[k := v];
    }
  }

  /** `visit(node, target, opts)`. A module or class gets a fresh `members`
      dictionary that its children are visited into; only `members` is reachable
      from those visits, so storing the entity after them leaves `target` as
      storing it first would. */
  method Visit(n: Node, target: Dict, filters: seq<Filter>) returns (threw: bool)
    requires target.Valid()
    modifies target
    ensures target.Valid()
    ensures Visited(target.Value(), threw) == VisitSpec(n, old(target.Value()), filters)
    decreases n, 1
  {
    threw := false;
    if n.kind == Module || n.kind == Class {
      if !IsExported(n) {
        return;
      }
      var included := n.kind == Module || |filters| == 0 || AnyMatches(filters, n.name);
      if !included {
        return;
      }
      var members := new Dict();
      threw := VisitEach(n.children, members, filters);
      target.Assign(n.name, Entity(n.docs, members.Value()));
    } else if n.kind == Method {
      if !IsPublic(n) {
        return;
      }
      threw := PushMethod(n, target);
    } else if n.kind == PropertyDecl || n.kind == GetAccessor || n.kind == SetAccessor {
      if !IsPublic(n) {
        return;
      }
      threw := MergeProperty(n, target);
    }
  }

  /** The public-method branch of `visit`: `target.methods` is created if
      absent, then the method's record is pushed onto it. */
  method PushMethod(n: Node, target: Dict) returns (threw: bool)
    requires target.Valid()
    modifies target
    ensures target.Valid()
    ensures Visited(target.Value(), threw) == VisitMethod(n, old(target.Value()))
  {
    threw := false;
    if MethodsKey !in target.vals {
      target.Assign(MethodsKey, Methods([]));
    }
    var entry := MethodEntryOf(n);
    var slot := target.vals[MethodsKey];
    if !slot.Methods? {
      // an entity object has no `push`
      threw := true;
      return;
    }
    target.Assign(MethodsKey, Methods(slot.methods + [entry]));
  }

  /** The public property and accessor branch of `visit`: `target.properties`
      is created if absent, the entry with the node's name is found or
      appended, and its flags and docs are updated. */
  method MergeProperty(n: Node, target: Dict) returns (threw: bool)
    requires target.Valid() && IsPropertyLike(n)
    modifies target
    ensures target.Valid()
    ensures Visited(target.Value(), threw) == VisitProperty(n, old(target.Value()))
  {
    threw := false;
    if PropertiesKey !in target.vals {
      target.Assign(PropertiesKey, Properties([]));
    }
    var docs := TextDocs(n.docs);
    var slot := target.vals[PropertiesKey];
    if !slot.Properties? {
      // an entity object has no `find`
      threw := true;
      return;
    }
    var properties := slot.properties;
    var found := FindByName(properties, n.name);
    var doc := DocAt(docs, 1);
    var i: nat;
    if found.None? {
      properties := properties + [PropertyEntry(n.name, n.typeName, None, None, [], [])];
      doc := DocAt(docs, 0);
      i := |properties| - 1;
    } else {
      i := found.value;
    }
    var property := UpdateEntry(properties[i], n, doc);
    assert properties[i := property] == Merged(slot.properties, n) by {
      if found.None? {
        assert properties[i := property] == slot.properties + [property];
      }
    }
    target.Assign(PropertiesKey, Properties(properties[i := property]));
  }

  /** The updates on the found or created entry: a plain property or a setter
      sets `set` and pushes the doc onto `docs.set`, a plain property or a
      getter sets `get` and pushes it onto `docs.get`. */
  method UpdateEntry(p: PropertyEntry, n: Node, doc: Option<Doc>) returns (property: PropertyEntry)
    ensures property == Accessed(p, n, doc)
  {
    property := p;
    if n.kind == PropertyDecl || n.kind == SetAccessor {
      property := property.(canSet := Some(IsWritable(n)));
      if doc.Some? {
        property := property.(setDocs := property.setDocs + [doc.value]);
      }
    }
    if n.kind == PropertyDecl || n.kind == GetAccessor {
      property := property.(canGet := Some(true));
      if doc.Some? {
        property := property.(getDocs := property.getDocs + [doc.value]);
      }
    }
  }

  /** `ts.forEachChild(node, (child) => visit(child, target, opts))`. */
  method VisitEach(ns: seq<Node>, target: Dict, filters: seq<Filter>) returns (threw: bool)
    requires target.Valid()
    modifies target
    ensures target.Valid()
    ensures Visited(target.Value(), threw) == VisitAllSpec(ns, old(target.Value()), filters)
    decreases ns, 0
  {
    threw := false;
    var i := 0;
    while i < |ns|
      invariant 0 <= i <= |ns| && target.Valid()
      invariant VisitAllSpec(ns, old(target.Value()), filters) == VisitAllSpec(ns[i..], target.Value(), filters)
    {
      assert ns[i..][1..] == ns[i + 1..];
      threw := Visit(ns[i], target, filters);
      if threw {
        return;
      }
      i := i + 1;
    }
  }

  /** The outcome of `extract`: the dictionary, or the TypeError it threw. */
  datatype Extraction = Extracted(info: Obj) | ThrewTypeError

  /** The extractor's module-level state: the `info` dictionary that every
      `extract` call replaces. */
  class Extractor {
    var info: Dict

    constructor ()
      ensures info.Valid() && info.Value() == EmptyObj
    {
      info := new Dict();
    }

    /** `extract(paths, opts)` returning the dictionary itself. */
    method Extract(files: seq<SourceFile>, filters: seq<Filter>) returns (result: Extraction)
      modifies this
      ensures fresh(info) && info.Valid()
      ensures Visited(info.Value(), result.ThrewTypeError?) == VisitFilesSpec(files, EmptyObj, filters)
      ensures result.Extracted? ==> result.info == info.Value()
    {
      info := new Dict();
      var i := 0;
      while i < |files|
        invariant 0 <= i <= |files| && fresh(info) && info.Valid()
        invariant VisitFilesSpec(files, EmptyObj, filters) == VisitFilesSpec(files[i..], info.Value(), filters)
      {
        assert files[i..][1..] == files[i + 1..];
        if !files[i].isDeclarationFile {
          var threw := VisitEach(files[i].statements, info, filters);
          if threw {
            return ThrewTypeError;
          }
        }
        i := i + 1;
      }
      return Extracted(info.Value());
    }
  }
}
