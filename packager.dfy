/** The packager's helpers: the two name transforms the templates call
    (`snakeCase`, `tagName`), the parameter list and doc string of a member,
    and the mapping of the extracted dictionary to one output file per
    top-level key. Template rendering itself is a parameter. */
module Packager {
  import opened Text
  import opened Extractor

  // ---------------------------------------------------------------------------
  // Name transforms

  /** What one character becomes: a character that counts as upper case is
      lowered and preceded by the separator; any other is kept. */
  function Piece(c: char, sep: char): string {
    if CountsAsUpper(c) then [sep, Lower(c)] else [c]
  }

  /** Every character of `s` replaced by its piece, in order. */
  function Separated(s: string, sep: char): string {
    if s == [] then "" else Piece(s[0], sep) + Separated(s[1..], sep)
  }

  /** How many characters of `s` count as upper case. */
  function UpperCount(s: string): nat {
    if s == [] then 0 else (if CountsAsUpper(s[0]) then 1 else 0) + UpperCount(s[1..])
  }

  /** Reads a separated string back: a separator and the character after it
      give that character in upper case, any other character stays. */
  function Restored(t: string, sep: char): string {
    if t == [] then ""
    else if t[0] == sep && |t| >= 2 then [Upper(t[1])] + Restored(t[2..], sep)
    else [t[0]] + Restored(t[1..], sep)
  }

  /** The name `toSnakeCase` returns: no special case for the first character. */
  function SnakeCase(name: string): string {
    Separated(name, '_')
  }

  /** What `toTagName`'s loop builds: the first character lowered, then every
      later character lowered and preceded by `-` when it counts as upper case. */
  function TagBody(name: string): string {
    if name == [] then "" else [Lower(name[0])] + Separated(name[1..], '-')
  }

  /** The name `toTagName` returns: the loop's result, with `x-` in front
      when the loop produced no hyphen. */
  function TagName(name: string): (r: string)
    ensures '-' in r
  {
    var body := TagBody(name);
    if '-' in body then body else "x-" + body
  }

  lemma {:induction false} SeparatedAppend(a: string, b: string, sep: char)
    ensures Separated(a + b, sep) == Separated(a, sep) + Separated(b, sep)
  {
    if a != [] {
      assert (a + b)[0] == a[0] && (a + b)[1..] == a[1..] + b;
      SeparatedAppend(a[1..], b, sep);
    } else {
      assert a + b == b;
    }
  }

  /** `toSnakeCase`: one pass over the name, appending to an accumulator. */
  method ToSnakeCase(name: string) returns (snakeName: string)
    ensures snakeName == SnakeCase(name)
  {
    snakeName := "";
    for i := 0 to |name|
      invariant snakeName == SnakeCase(name[..i])
    {
      var letter := name[i];
      if letter == Upper(letter) {
        snakeName := snakeName + "_" + [Lower(letter)];
      } else {
        snakeName := snakeName + [letter];
      }
      SeparatedAppend(name[..i], [letter], '_');
      assert name[..i + 1] == name[..i] + [letter];
    }
    assert name[..|name|] == name;
  }

  /** `toTagName`: the first character, then a loop over the rest by index. */
  method ToTagName(name: string) returns (tagName: string)
    ensures tagName == TagName(name)
  {
    tagName := if |name| > 0 then [Lower(name[0])] else "";
    var c := 1;
    while c < |name|
      invariant 1 <= c && (|name| > 0 ==> c <= |name|)
      invariant tagName == if |name| == 0 then "" else [Lower(name[0])] + Separated(name[1..c], '-')
    {
      var letter := name[c];
      ghost var before := tagName;
      if letter == Upper(letter) {
        tagName := tagName + "-";
      }
      tagName := tagName + [Lower(letter)];
      assert tagName == before + Piece(letter, '-');
      SeparatedAppend(name[1..c], [letter], '-');
      assert Separated([letter], '-') == Piece(letter, '-');
      assert name[1..c + 1] == name[1..c] + [letter];
      c := c + 1;
    }
    if |name| > 0 {
      assert name[1..c] == name[1..];
    }
    assert tagName == TagBody(name);
    if '-' !in tagName {
      tagName := "x-" + tagName;
    }
  }

  /** One extra character per character that counts as upper case. */
  lemma {:induction false} SeparatedLength(s: string, sep: char)
    ensures |Separated(s, sep)| == |s| + UpperCount(s)
  {
    if s != [] {
      SeparatedLength(s[1..], sep);
    }
  }

  /** With a separator that is not an ASCII capital, no ASCII capital is left. */
  lemma {:induction false} SeparatedLowercase(s: string, sep: char)
    requires !IsAsciiUpper(sep)
    ensures forall i :: 0 <= i < |Separated(s, sep)| ==> !IsAsciiUpper(Separated(s, sep)[i])
  {
    if s != [] {
      SeparatedLowercase(s[1..], sep);
      CountsAsUpperExactly(s[0]);
      var p := Piece(s[0], sep);
      var r := Separated(s, sep);
      forall i | 0 <= i < |r| ensures !IsAsciiUpper(r[i]) {
        if i >= |p| {
          assert r[i] == Separated(s[1..], sep)[i - |p|];
        }
      }
    }
  }

  /** A separator other than a lower-case letter is never taken for a kept
      character, so the transform loses nothing: it can be read back. */
  lemma {:induction false} RestoreSeparated(s: string, sep: char)
    requires !('a' <= sep <= 'z')
    ensures Restored(Separated(s, sep), sep) == s
  {
    if s != [] {
      var rest := Separated(s[1..], sep);
      RestoreSeparated(s[1..], sep);
      CountsAsUpperExactly(s[0]);
      if CountsAsUpper(s[0]) {
        var t := [sep, Lower(s[0])] + rest;
        assert t[2..] == rest;
      } else {
        assert ([s[0]] + rest)[1..] == rest;
      }
    }
  }

  /** The separator occurs exactly when some character counts as upper case. */
  lemma {:induction false} SeparatorOccurs(s: string, sep: char)
    requires !('a' <= sep <= 'z')
    ensures sep in Separated(s, sep) <==> exists i :: 0 <= i < |s| && CountsAsUpper(s[i])
  {
    if s != [] {
      SeparatorOccurs(s[1..], sep);
      CountsAsUpperExactly(s[0]);
      var rest := Separated(s[1..], sep);
      assert Separated(s, sep) == Piece(s[0], sep) + rest;
      if exists i :: 0 <= i < |s[1..]| && CountsAsUpper(s[1..][i]) {
        var i :| 0 <= i < |s[1..]| && CountsAsUpper(s[1..][i]);
        assert s[i + 1] == s[1..][i];
      }
      if exists i :: 0 <= i < |s| && CountsAsUpper(s[i]) {
        var i :| 0 <= i < |s| && CountsAsUpper(s[i]);
        if i > 0 {
          assert s[1..][i - 1] == s[i];
        }
      }
    }
  }

  /** `toSnakeCase` leaves no ASCII capital, adds one `_` per character that
      counts as upper case, and can be read back. */
  lemma SnakeCaseProperties(name: string)
    ensures |SnakeCase(name)| == |name| + UpperCount(name)
    ensures forall i :: 0 <= i < |SnakeCase(name)| ==> !IsAsciiUpper(SnakeCase(name)[i])
    ensures Restored(SnakeCase(name), '_') == name
  {
    SeparatedLength(name, '_');
    SeparatedLowercase(name, '_');
    RestoreSeparated(name, '_');
  }

  /** The tag name is the loop's result exactly when that already has a
      hyphen: the first character is `-`, or a later one counts as upper case.
      Otherwise it is `x-` and the loop's result. */
  lemma TagNamePrefix(name: string)
    ensures TagName(name)
            == if (|name| > 0 && name[0] == '-') || exists i :: 1 <= i < |name| && CountsAsUpper(name[i])
               then TagBody(name) else "x-" + TagBody(name)
  {
    if name != [] {
      var tail := name[1..];
      SeparatorOccurs(tail, '-');
      assert TagBody(name) == [Lower(name[0])] + Separated(tail, '-');
      assert Lower(name[0]) == '-' <==> name[0] == '-';
      if exists i :: 1 <= i < |name| && CountsAsUpper(name[i]) {
        var i :| 1 <= i < |name| && CountsAsUpper(name[i]);
        assert tail[i - 1] == name[i];
      }
      if exists i :: 0 <= i < |tail| && CountsAsUpper(tail[i]) {
        var i :| 0 <= i < |tail| && CountsAsUpper(tail[i]);
        assert name[i + 1] == tail[i];
      }
    }
  }

  /** A tag name has no ASCII capital. */
  lemma TagNameLowercase(name: string)
    ensures forall i :: 0 <= i < |TagName(name)| ==> !IsAsciiUpper(TagName(name)[i])
  {
    if name != [] {
      SeparatedLowercase(name[1..], '-');
      CountsAsUpperExactly(name[0]);
      var body := TagBody(name);
      forall i | 1 <= i < |body| ensures !IsAsciiUpper(body[i]) {
        assert body[i] == Separated(name[1..], '-')[i - 1];
      }
    }
  }

  /** The loop's result starts with the first character lowered, with no
      hyphen before it, and the rest reads back to the name's other characters. */
  lemma TagBodyRestores(name: string)
    requires name != []
    ensures TagBody(name)[0] == Lower(name[0])
    ensures Restored(TagBody(name)[1..], '-') == name[1..]
  {
    RestoreSeparated(name[1..], '-');
    assert TagBody(name)[1..] == Separated(name[1..], '-');
  }

  /** The first character is not special-cased: a leading capital gets a
      separator too. */
  lemma SnakeXFoo()
    ensures SnakeCase("XFoo") == "_x_foo"
  {
    assert Separated("o", '_') == "o";
    assert Separated("oo", '_') == "oo";
    assert Separated("Foo", '_') == "_foo";
  }

  /** An inner capital gives the hyphen; without one, `x-` is put in front. */
  lemma SampleTagNames()
    ensures TagName("XFoo") == "x-foo"
    ensures TagName("Foo") == "x-foo"
    ensures TagName("") == "x-"
  {
    assert Separated("o", '-') == "o";
    assert Separated("oo", '-') == "oo";
    assert Separated("Foo", '-') == "-foo";
    assert TagBody("XFoo") == "x-foo";
    assert TagBody("Foo") == "foo";
    assert '-' !in "foo";
  }

  // ---------------------------------------------------------------------------
  // Parameter lists and doc strings

  function Names(params: seq<Param>): seq<string> {
    seq(|params|, i requires 0 <= i < |params| => params[i].name)
  }

  /** `paramList`: nothing for no parameters, otherwise `, ` and the names
      joined by `, `. */
  function ParamsList(params: seq<Param>): (r: string)
    ensures r == "" <==> params == []
  {
    if |params| == 0 then "" else ", " + Join(Names(params), ", ")
  }

  /** Each parameter's name, preceded by `, `, one after another. */
  function EachPrefixed(params: seq<Param>): string {
    if params == [] then "" else ", " + params[0].name + EachPrefixed(params[1..])
  }

  /** The parameter list is `, name` per parameter, in order; the type and the
      docs of a parameter never appear. */
  lemma {:induction false} ParamsListEach(params: seq<Param>)
    ensures ParamsList(params) == EachPrefixed(params)
  {
    if |params| >= 2 {
      ParamsListEach(params[1..]);
      JoinCons(Names(params), ", ");
      assert Names(params)[1..] == Names(params[1..]);
    }
  }

  /** What `docStr` is called on: a member with a `docs` list, or a doc
      fragment (no `docs`, a `text`). Either may lack a name. */
  datatype DocHolder =
    | Documented(name: Option<string>, docs: seq<Doc>)
    | Fragment(name: Option<string>, text: string)

  /** `${this.name}`: an absent name prints as `undefined`. */
  function NameText(name: Option<string>): string {
    match name
    case Some(s) => s
    case None => "undefined"
  }

  function Texts(docs: seq<Doc>): seq<string> {
    seq(|docs|, i requires 0 <= i < |docs| => docs[i].text)
  }

  /** `indentText`: each newline followed by `k` spaces, then trimmed. */
  function IndentText(s: string, k: nat): string {
    Trim(Indent(s, k))
  }

  /** The text `docStr` starts from and the indent it uses. */
  function DocSource(h: DocHolder): string {
    match h
    case Documented(_, docs) => Join(Texts(docs), ",")
    case Fragment(_, text) => text
  }

  function DocIndent(h: DocHolder): nat {
    if h.Documented? then 5 else 7
  }

  /** `docStr`: the indented, trimmed text; when that is empty, a fallback
      built from the name. Never empty. */
  function DocStr(h: DocHolder): (r: string)
    ensures r != ""
  {
    var indented := IndentText(DocSource(h), DocIndent(h));
    if indented != "" then indented
    else if h.Documented? then NameText(h.name) + " method."
    else NameText(h.name) + "."
  }

  /** Without fallback, the doc string neither starts nor ends with
      whitespace, and every newline in it is followed by the indent's spaces. */
  lemma DocStrFormat(h: DocHolder)
    requires IndentText(DocSource(h), DocIndent(h)) != ""
    ensures var r := DocStr(h);
            && !IsJsWhitespace(r[0]) && !IsJsWhitespace(r[|r| - 1])
            && IndentedBy(r, DocIndent(h))
  {
    var k := DocIndent(h);
    var s := DocSource(h);
    IndentReplacesNewlines(s, k);
    NewlinesIndentedBy(s, k);
    TrimKeepsIndent(NewlinesIndented(s, k), k);
  }

  /** The fallbacks: a fragment with nothing but whitespace gives `name.`, a
      member whose joined docs are nothing but whitespace gives `name method.`. */
  lemma DocStrFallback(h: DocHolder)
    requires AllWhitespace(DocSource(h))
    ensures DocStr(h) == NameText(h.name) + (if h.Documented? then " method." else ".")
  {
    var k := DocIndent(h);
    var s := DocSource(h);
    IndentReplacesNewlines(s, k);
    IndentedWhitespace(s, k);
    TrimAllWhitespace(NewlinesIndented(s, k));
  }

  lemma {:induction false} IndentedWhitespace(s: string, k: nat)
    requires AllWhitespace(s)
    ensures AllWhitespace(NewlinesIndented(s, k))
  {
    if s != [] {
      assert AllWhitespace(s[1..]) by {
        forall i | 0 <= i < |s[1..]| ensures IsJsWhitespace(s[1..][i]) {
          assert s[1..][i] == s[i + 1];
        }
      }
      IndentedWhitespace(s[1..], k);
      var head := if s[0] == '\n' then "\n" + Spaces(k) else [s[0]];
      var u := NewlinesIndented(s, k);
      assert u == head + NewlinesIndented(s[1..], k);
      forall i | 0 <= i < |u| ensures IsJsWhitespace(u[i]) {
        if i >= |head| {
          assert u[i] == NewlinesIndented(s[1..], k)[i - |head|];
        }
      }
    }
  }

  /** The fallback is taken exactly when the source text is all whitespace;
      otherwise the doc string is the indented, trimmed text, whose form
      `DocStrFormat` gives. */
  lemma FallbackExactly(h: DocHolder)
    ensures IndentText(DocSource(h), DocIndent(h)) == "" <==> AllWhitespace(DocSource(h))
    ensures !AllWhitespace(DocSource(h)) ==> DocStr(h) == IndentText(DocSource(h), DocIndent(h))
  {
    var k := DocIndent(h);
    var s := DocSource(h);
    IndentReplacesNewlines(s, k);
    TrimEmptyExactly(NewlinesIndented(s, k));
    if AllWhitespace(s) {
      IndentedWhitespace(s, k);
    } else {
      var p :| 0 <= p < |s| && !IsJsWhitespace(s[p]);
      IndentedKeepsText(s, k, p);
    }
  }

  /** A member's doc texts are joined with `,` between them, in order: none
      gives the empty text, one gives its own text, and one more adds `,` and
      its text at the end. */
  lemma DocSourceJoins(name: Option<string>, docs: seq<Doc>, d: Doc)
    ensures DocSource(Documented(name, [])) == ""
    ensures DocSource(Documented(name, [d])) == d.text
    ensures docs != [] ==> DocSource(Documented(name, docs + [d])) == DocSource(Documented(name, docs)) + "," + d.text
  {
    assert Texts([d]) == [d.text];
    if docs != [] {
      assert Texts(docs + [d]) == Texts(docs) + [d.text];
      JoinSnoc(Texts(docs), d.text, ",");
    }
  }

  /** One comment on one line, with no whitespace at either end, is the doc
      string as it stands (as for the sample's `logX`). */
  lemma OneLineDoc(name: Option<string>, d: Doc)
    requires d.text != [] && '\n' !in d.text
    requires !IsJsWhitespace(d.text[0]) && !IsJsWhitespace(d.text[|d.text| - 1])
    ensures DocStr(Documented(name, [d])) == d.text
  {
    assert Texts([d]) == [d.text];
    NoNewlineUnchanged(d.text, 5);
    IndentReplacesNewlines(d.text, 5);
    assert TrimStart(d.text) == d.text;
    assert TrimEnd(d.text) == d.text;
  }

  /** A member with an empty `docs` list gets `<name> method.`. */
  lemma NoDocs(name: Option<string>)
    ensures DocStr(Documented(name, [])) == NameText(name) + " method."
  {
    assert DocSource(Documented(name, [])) == "";
    DocStrFallback(Documented(name, []));
  }

  // ---------------------------------------------------------------------------
  // Packing

  /** What the class template is rendered from. */
  datatype ClassView = ClassView(className: string, fileDocStr: string, details: Slot)

  datatype OutputFile = OutputFile(name: string, content: string)

  /** `template(className, details)`'s data: the file doc string is
      `<className> proxy.`. */
  function ViewOf(className: string, details: Slot): (v: ClassView)
    ensures v.className == className && v.details == details
    ensures v.fileDocStr == className + " proxy."
  {
    ClassView(className, className + " proxy.", details)
  }

  /** `pack`: one output per top-level key, in key order. Rendering the
      templates is the `render` parameter. */
  function Pack(info: Obj, render: ClassView -> string): (out: seq<OutputFile>)
    requires ValidObj(info)
    ensures |out| == |info.keys|
  {
    seq(|info.keys|, i requires 0 <= i < |info.keys| && ValidObj(info) =>
      OutputFile(info.keys[i] + ".py", render(ViewOf(info.keys[i], info.vals[info.keys[i]]))))
  }

  /** File `i` belongs to top-level key `i`: it is named the key plus `.py` and
      rendered from the key, its value and the file doc string `<key> proxy.`. */
  lemma PackContents(info: Obj, render: ClassView -> string)
    requires ValidObj(info)
    ensures var out := Pack(info, render);
            && |out| == |info.keys|
            && forall i :: 0 <= i < |out| ==>
                 && out[i].name == info.keys[i] + ".py"
                 && out[i].content == render(ClassView(info.keys[i], info.keys[i] + " proxy.", info.vals[info.keys[i]]))
  {
    var out := Pack(info, render);
    forall i | 0 <= i < |out|
      ensures out[i].name == info.keys[i] + ".py"
      ensures out[i].content == render(ClassView(info.keys[i], info.keys[i] + " proxy.", info.vals[info.keys[i]]))
    {
      var k := info.keys[i];
      assert out[i] == OutputFile(k + ".py", render(ViewOf(k, info.vals[k])));
      assert ViewOf(k, info.vals[k]) == ClassView(k, k + " proxy.", info.vals[k]);
    }
  }

  /** Every top-level key gets a file. */
  lemma PackCoversKeys(info: Obj, render: ClassView -> string)
    requires ValidObj(info)
    ensures var out := Pack(info, render);
            forall k :: k in info.vals ==>
              exists i :: 0 <= i < |out| && out[i].name == k + ".py"
                          && out[i].content == render(ViewOf(k, info.vals[k]))
  {
    var out := Pack(info, render);
    PackContents(info, render);
    forall k | k in info.vals
      ensures exists i :: 0 <= i < |out| && out[i].name == k + ".py"
                          && out[i].content == render(ViewOf(k, info.vals[k]))
    {
      var i :| 0 <= i < |info.keys| && info.keys[i] == k;
      assert out[i].name == k + ".py";
    }
  }

  /** Each file name gives its key back once `.py` is removed. */
  lemma PackNameGivesKey(info: Obj, render: ClassView -> string)
    requires ValidObj(info)
    ensures var out := Pack(info, render);
            forall i :: 0 <= i < |out| ==>
              |out[i].name| >= 3 && out[i].name[|out[i].name| - 3..] == ".py"
              && out[i].name[..|out[i].name| - 3] == info.keys[i]
  {
    var out := Pack(info, render);
    PackContents(info, render);
    forall i | 0 <= i < |out|
      ensures |out[i].name| >= 3 && out[i].name[|out[i].name| - 3..] == ".py"
              && out[i].name[..|out[i].name| - 3] == info.keys[i]
    {
      var a := info.keys[i];
      assert out[i].name == a + ".py";
      assert (a + ".py")[..|a|] == a;
      assert (a + ".py")[|a|..] == ".py";
    }
  }

  /** No two files share a name: the keys are distinct. */
  lemma PackNamesDistinct(info: Obj, render: ClassView -> string)
    requires ValidObj(info)
    ensures var out := Pack(info, render);
            forall i, j :: 0 <= i < j < |out| ==> out[i].name != out[j].name
  {
    var out := Pack(info, render);
    PackNameGivesKey(info, render);
    forall i, j | 0 <= i < j < |out| ensures out[i].name != out[j].name {
      assert info.keys[i] != info.keys[j];
    }
  }

  /** `pack` gives one file per top-level key, in key order: file `i` is named
      key `i` plus `.py` and rendered from that key's view; every key is
      covered, names are distinct and each name gives its key back. */
  lemma PackOnePerKey(info: Obj, render: ClassView -> string)
    requires ValidObj(info)
    ensures var out := Pack(info, render);
            && |out| == |info.keys|
            && (forall i :: 0 <= i < |out| ==>
                  out[i].content == render(ClassView(info.keys[i], info.keys[i] + " proxy.", info.vals[info.keys[i]])))
            && (forall k :: k in info.vals ==>
                  exists i :: 0 <= i < |out| && out[i].name == k + ".py"
                              && out[i].content == render(ViewOf(k, info.vals[k])))
            && (forall i, j :: 0 <= i < j < |out| ==> out[i].name != out[j].name)
            && (forall i :: 0 <= i < |out| ==>
                  |out[i].name| >= 3 && out[i].name[|out[i].name| - 3..] == ".py"
                  && out[i].name[..|out[i].name| - 3] == info.keys[i])
  {
    PackContents(info, render);
    PackCoversKeys(info, render);
    PackNameGivesKey(info, render);
    PackNamesDistinct(info, render);
  }
}
