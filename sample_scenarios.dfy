/** The `XFoo` custom element of the repository's sample input and what the
    extractor builds from it. The nodes carry the names, modifier flags, type
    strings and documentation fragments the type checker is expected to report
    for these declarations; the compiler itself is not modelled. */
module SampleScenarios {
  import opened Extractor
  import opened ExtractorProperties

  const GetsDoc := Doc("Gets you the private number.", "text")
  const SetsDoc := Doc("Sets the private number.", "text")

  /** The documentation of the `privateNumber` symbol: both accessors' comments,
      separated by a line break. */
  const PrivateNumberDocs := [GetsDoc, Doc("\n", "lineBreak"), SetsDoc]

  const LogXDoc := Doc("logs x.", "text")

  /** The class comment; its two lines are joined by a newline. */
  const XFooDoc := Doc("Represents an x-foo as a Custom Element class.\nThis is a multi-line comment.", "text")

  /** `logX`'s parameter, documented by the `@param` tag of the method's comment. */
  const ParamX := Param("x", "number", [Doc("A number for x.", "text")])

  function Member(kind: Kind, name: string, flags: bv32, typeName: string,
                  docs: seq<Doc>, sigs: seq<CallSignature>): Node {
    Node(kind, name, flags, typeName, docs, sigs, [])
  }

  const PrivateNumberGetter := Member(GetAccessor, "privateNumber", 0, "number", PrivateNumberDocs, [])
  const PrivateNumberSetter := Member(SetAccessor, "privateNumber", 0, "number", PrivateNumberDocs, [])
  const LogX := Member(Method, "logX", 0, "(x: number) => void", [LogXDoc],
                       [CallSignature("void", [ParamX])])
  const LogY := Member(Method, "logY", PrivateFlag, "(y: string) => void", [Doc("Logs out qux.", "text")],
                       [CallSignature("void", [Param("y", "string", [Doc("A number for y.", "text")])])])

  const XFoo := Node(Class, "XFoo", ExportFlag, "typeof XFoo", [XFooDoc], [],
                     [PrivateNumberGetter, PrivateNumberSetter, LogX, LogY])

  const AfterGetter := PropertyEntry("privateNumber", "number", None, Some(true), [], [GetsDoc])
  const AfterSetter := PropertyEntry("privateNumber", "number", Some(true), Some(true), [SetsDoc], [GetsDoc])

  /** Only the two comments are text fragments. */
  lemma PrivateNumberTexts()
    ensures DocAt(TextDocs(PrivateNumberDocs), 0) == Some(GetsDoc)
    ensures DocAt(TextDocs(PrivateNumberDocs), 1) == Some(SetsDoc)
  {
    assert TextDocs(PrivateNumberDocs) == [GetsDoc, SetsDoc];
  }

  /** The getter creates the `privateNumber` entry and takes text fragment 0,
      its own comment; the setter finds it and takes fragment 1, the setter's
      comment. One entry results, readable and writable. */
  lemma PrivateNumberPair()
    ensures var v := VisitAllSpec([PrivateNumberGetter, PrivateNumberSetter], EmptyObj, []);
            && !v.threw && ListsOrAbsent(v.target)
            && PropertiesOf(v.target) == [AfterSetter]
            && MethodsOf(v.target) == []
  {
    PrivateNumberTexts();
    assert PropertiesOf(EmptyObj) == [] && MethodsOf(EmptyObj) == [];
    ExtractorProperties.AccessorPairMerges(PrivateNumberGetter, PrivateNumberSetter, EmptyObj, []);
  }

  /** `logX` has one call signature, so its entry holds one signature. */
  lemma LogXEntry()
    ensures MethodEntryOf(LogX) == MethodEntry([Signature("logX", "void", [ParamX], [LogXDoc])])
  {
  }

  /** The members of `XFoo`, walked into an empty dictionary: the merged
      `privateNumber` entry and the entry of `logX`; `logY` is private. */
  lemma XFooMembers()
    ensures var v := VisitAllSpec(XFoo.children, EmptyObj, []);
            && !v.threw && ListsOrAbsent(v.target)
            && MethodsOf(v.target) == [MethodEntryOf(LogX)]
            && PropertiesOf(v.target) == [AfterSetter]
  {
    var pair := [PrivateNumberGetter, PrivateNumberSetter];
    assert XFoo.children == pair + [LogX, LogY];
    VisitAllAppend(pair, [LogX, LogY], EmptyObj, []);
    PrivateNumberPair();
    var v2 := VisitAllSpec(pair, EmptyObj, []);
    TwoStepWalk(LogX, LogY, v2.target, []);
    MethodStep(LogX, v2.target);
    var v3 := VisitSpec(LogX, v2.target, []);
    assert v3 == VisitMethod(LogX, v2.target);
    HiddenMemberIgnored(LogY, v3.target, []);
  }

  /** `XFoo` with an accessor pair, a public `logX` and a private `logY`: one
      top-level key, one method entry (for `logX`), one property entry. */
  lemma SampleClass()
    ensures var v := VisitAllSpec([XFoo], EmptyObj, []);
            && !v.threw
            && v.target.keys == ["XFoo"]
            && v.target.vals["XFoo"].Entity?
            && v.target.vals["XFoo"].docs == [XFooDoc]
            && var m := v.target.vals["XFoo"].members;
               && MethodsOf(m) == [MethodEntry([Signature("logX", "void", [ParamX], [LogXDoc])])]
               && PropertiesOf(m) == [AfterSetter]
  {
    XFooMembers();
    LogXEntry();
    EntityVisit(XFoo, EmptyObj, []);
    assert [XFoo][1..] == [];
  }
}
