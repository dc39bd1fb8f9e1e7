/** String primitives that the packager's helpers are built from: ASCII case
    mapping, JavaScript's `split`/`join` and `trim`, and `repeat` of a space. */
module Text {

  /** `c.toUpperCase()`, restricted to ASCII letters. */
  function Upper(c: char): char {
    if 'a' <= c <= 'z' then (c as int - 32) as char else c
  }

  /** `c.toLowerCase()`, restricted to ASCII letters. */
  function Lower(c: char): char {
    if 'A' <= c <= 'Z' then (c as int + 32) as char else c
  }

  /** The packager's test for an "uppercase" character: `c === c.toUpperCase()`.
      It holds of every character that is not a lower-case letter: digits,
      `_` and `-` included. */
  predicate CountsAsUpper(c: char) {
    c == Upper(c)
  }

  predicate IsAsciiUpper(c: char) {
    'A' <= c <= 'Z'
  }

  lemma CountsAsUpperExactly(c: char)
    ensures CountsAsUpper(c) <==> !('a' <= c <= 'z')
    ensures !IsAsciiUpper(Lower(c))
    ensures CountsAsUpper(c) ==> Upper(Lower(c)) == c
  {
  }

  /** `Array.prototype.join`: no separator before the first part. */
  function Join(parts: seq<string>, sep: string): string {
    if |parts| == 0 then ""
    else if |parts| == 1 then parts[0]
    else parts[0] + sep + Join(parts[1..], sep)
  }

  lemma JoinCons(parts: seq<string>, sep: string)
    requires |parts| >= 2
    ensures Join(parts, sep) == parts[0] + sep + Join(parts[1..], sep)
  {
  }

  /** Joining one more part adds the separator and the part at the end. */
  lemma {:induction false} JoinSnoc(parts: seq<string>, x: string, sep: string)
    requires parts != []
    ensures Join(parts + [x], sep) == Join(parts, sep) + sep + x
  {
    if |parts| == 1 {
      assert parts + [x] == [parts[0], x];
    } else {
      assert (parts + [x])[1..] == parts[1..] + [x];
      JoinSnoc(parts[1..], x, sep);
    }
  }

  /** `String.prototype.split` on a one-character separator. */
  function Split(s: string, d: char): (parts: seq<string>)
    ensures |parts| >= 1
    ensures forall i :: 0 <= i < |parts| ==> d !in parts[i]
  {
    if s == [] then [""]
    else
      var rest := Split(s[1..], d);
      if s[0] == d then [""] + rest
      else [[s[0]] + rest[0]] + rest[1..]
  }

  /** Joining the parts of a split with the separator gives back the string. */
  lemma {:induction false} JoinSplit(s: string, d: char)
    ensures Join(Split(s, d), [d]) == s
  {
    if s != [] {
      var rest := Split(s[1..], d);
      JoinSplit(s[1..], d);
      if s[0] == d {
        JoinCons([""] + rest, [d]);
        assert ([""] + rest)[1..] == rest;
      } else {
        var parts := [[s[0]] + rest[0]] + rest[1..];
        if |rest| >= 2 {
          JoinCons(parts, [d]);
          JoinCons(rest, [d]);
          assert parts[1..] == rest[1..];
        }
        assert s == [s[0]] + s[1..];
      }
    }
  }

  /** `' '.repeat(k)` */
  function Spaces(k: nat): (r: string)
    ensures |r| == k && forall i :: 0 <= i < k ==> r[i] == ' '
  {
    if k == 0 then "" else " " + Spaces(k - 1)
  }

  /** Every character with `c == '\n'` replaced by a newline and `k` spaces,
      one character at a time. */
  function NewlinesIndented(s: string, k: nat): string {
    if s == [] then ""
    else (if s[0] == '\n' then "\n" + Spaces(k) else [s[0]]) + NewlinesIndented(s[1..], k)
  }

  /** `str.split('\n').join('\n' + ' '.repeat(k))`, as the packager writes it. */
  function Indent(s: string, k: nat): string {
    Join(Split(s, '\n'), "\n" + Spaces(k))
  }

  /** Splitting on newlines and joining with newline-plus-spaces replaces each
      newline by itself followed by `k` spaces and leaves every other character. */
  lemma {:induction false} IndentReplacesNewlines(s: string, k: nat)
    ensures Indent(s, k) == NewlinesIndented(s, k)
  {
    if s != [] {
      var sep := "\n" + Spaces(k);
      var rest := Split(s[1..], '\n');
      IndentReplacesNewlines(s[1..], k);
      if s[0] == '\n' {
        JoinCons([""] + rest, sep);
        assert ([""] + rest)[1..] == rest;
      } else {
        var parts := [[s[0]] + rest[0]] + rest[1..];
        if |rest| >= 2 {
          JoinCons(parts, sep);
          JoinCons(rest, sep);
          assert parts[1..] == rest[1..];
        }
      }
    }
  }

  /** After indenting, every newline is followed by exactly `k` spaces. */
  lemma {:induction false} NewlineFollowedBySpaces(s: string, k: nat, i: nat)
    requires i < |NewlinesIndented(s, k)| && NewlinesIndented(s, k)[i] == '\n'
    ensures i + k < |NewlinesIndented(s, k)|
    ensures NewlinesIndented(s, k)[i + 1..i + 1 + k] == Spaces(k)
  {
    var head := if s[0] == '\n' then "\n" + Spaces(k) else [s[0]];
    var r := NewlinesIndented(s, k);
    assert r == head + NewlinesIndented(s[1..], k);
    if i >= |head| {
      NewlineFollowedBySpaces(s[1..], k, i - |head|);
      assert r[i + 1..i + 1 + k] == NewlinesIndented(s[1..], k)[i - |head| + 1..i - |head| + 1 + k];
    } else {
      assert s[0] == '\n' && i == 0;
      assert r[1..1 + k] == Spaces(k);
    }
  }

  /** A text without newlines is left as it is. */
  lemma {:induction false} NoNewlineUnchanged(s: string, k: nat)
    requires '\n' !in s
    ensures NewlinesIndented(s, k) == s
  {
    if s != [] {
      NoNewlineUnchanged(s[1..], k);
    }
  }

  /** Every newline of `u` is followed by `k` spaces. */
  predicate IndentedBy(u: string, k: nat) {
    forall p :: 0 <= p < |u| && u[p] == '\n' ==> p + k < |u| && u[p + 1..p + 1 + k] == Spaces(k)
  }

  lemma NewlinesIndentedBy(s: string, k: nat)
    ensures IndentedBy(NewlinesIndented(s, k), k)
  {
    forall p | 0 <= p < |NewlinesIndented(s, k)| && NewlinesIndented(s, k)[p] == '\n'
      ensures p + k < |NewlinesIndented(s, k)|
              && NewlinesIndented(s, k)[p + 1..p + 1 + k] == Spaces(k)
    {
      NewlineFollowedBySpaces(s, k, p);
    }
  }

  /** A newline inside a slice that ends with a character other than a space,
      followed in the whole by `k` spaces, is followed by them in the slice. */
  lemma SpacesStayInside(u: string, r: string, j: nat, i: nat, k: nat)
    requires j + |r| <= |u| && r == u[j..j + |r|]
    requires i < |r| && r[i] == '\n' && r[|r| - 1] != ' ' && r[|r| - 1] != '\n'
    requires j + i + 1 + k <= |u| && u[j + i + 1..j + i + 1 + k] == Spaces(k)
    ensures i + k < |r| && r[i + 1..i + 1 + k] == Spaces(k)
  {
    forall p | j + i + 1 <= p < j + i + 1 + k ensures u[p] == ' ' {
      assert u[p] == u[j + i + 1..j + i + 1 + k][p - (j + i + 1)];
    }
    assert u[j + |r| - 1] == r[|r| - 1];
    forall m | 0 <= m < k ensures r[i + 1..i + 1 + k][m] == Spaces(k)[m] {
      assert r[i + 1 + m] == u[j + i + 1 + m];
      assert u[j + i + 1 + m] == u[j + i + 1..j + i + 1 + k][m];
    }
  }

  /** The characters `String.prototype.trim` removes: ECMAScript WhiteSpace
      (tab, vertical tab, form feed, space, no-break space, byte-order mark and
      the Unicode space separators) and LineTerminator. */
  predicate IsJsWhitespace(c: char) {
    || c == '\t' || c == '\n' || c == '\U{000B}' || c == '\U{000C}' || c == '\r'
    || c == ' ' || c == '\U{00A0}' || c == '\U{1680}'
    || ('\U{2000}' <= c <= '\U{200A}')
    || c == '\U{2028}' || c == '\U{2029}' || c == '\U{202F}' || c == '\U{205F}'
    || c == '\U{3000}' || c == '\U{FEFF}'
  }

  predicate AllWhitespace(s: string) {
    forall i :: 0 <= i < |s| ==> IsJsWhitespace(s[i])
  }

  /** Leading whitespace removed: a suffix that does not start with
      whitespace. */
  function TrimStart(s: string): (r: string)
    ensures |r| <= |s| && r == s[|s| - |r|..]
    ensures r == [] || !IsJsWhitespace(r[0])
  {
    if |s| > 0 && IsJsWhitespace(s[0]) then TrimStart(s[1..]) else s
  }

  /** Trailing whitespace removed: a prefix that does not end with
      whitespace. */
  function TrimEnd(s: string): (r: string)
    ensures |r| <= |s| && r == s[..|r|]
    ensures r == [] || !IsJsWhitespace(r[|r| - 1])
  {
    if |s| > 0 && IsJsWhitespace(s[|s| - 1]) then TrimEnd(s[..|s| - 1]) else s
  }

  /** What `TrimStart` cuts off is all whitespace. */
  lemma {:induction false} TrimStartCutsWhitespace(s: string)
    ensures AllWhitespace(s[..|s| - |TrimStart(s)|])
  {
    if |s| > 0 && IsJsWhitespace(s[0]) {
      TrimStartCutsWhitespace(s[1..]);
      var n := |s| - |TrimStart(s)|;
      forall i | 0 <= i < n ensures IsJsWhitespace(s[..n][i]) {
        if i > 0 {
          assert s[..n][i] == s[1..][..n - 1][i - 1];
        }
      }
    }
  }

  /** What `TrimEnd` cuts off is all whitespace. */
  lemma {:induction false} TrimEndCutsWhitespace(s: string)
    ensures AllWhitespace(s[|TrimEnd(s)|..])
  {
    if |s| > 0 && IsJsWhitespace(s[|s| - 1]) {
      TrimEndCutsWhitespace(s[..|s| - 1]);
      var m := |TrimEnd(s)|;
      forall i | 0 <= i < |s| - m ensures IsJsWhitespace(s[m..][i]) {
        if i < |s| - 1 - m {
          assert s[m..][i] == s[..|s| - 1][m..][i];
        }
      }
    }
  }

  /** `String.prototype.trim`: leading and trailing whitespace removed. */
  function Trim(s: string): (r: string)
    ensures r == [] || (!IsJsWhitespace(r[0]) && !IsJsWhitespace(r[|r| - 1]))
  {
    TrimEnd(TrimStart(s))
  }

  /** Nothing is left of a text that is all whitespace. */
  lemma TrimAllWhitespace(s: string)
    requires AllWhitespace(s)
    ensures Trim(s) == ""
  {
  }

  /** The trimmed text is a slice of the original; `j` is where it starts. */
  lemma TrimOffset(s: string) returns (j: nat)
    ensures j + |Trim(s)| <= |s| && Trim(s) == s[j..j + |Trim(s)|]
  {
    var t := TrimStart(s);
    j := |s| - |t|;
    PrefixOfSuffix(s, j, |TrimEnd(t)|);
  }

  /** Trimming removes whitespace and nothing else: around the trimmed text
      there is only whitespace. */
  lemma TrimCutsOnlyWhitespace(s: string) returns (j: nat)
    ensures j + |Trim(s)| <= |s| && Trim(s) == s[j..j + |Trim(s)|]
    ensures AllWhitespace(s[..j]) && AllWhitespace(s[j + |Trim(s)|..])
  {
    var t := TrimStart(s);
    var r := TrimEnd(t);
    j := |s| - |t|;
    TrimStartCutsWhitespace(s);
    TrimEndCutsWhitespace(t);
    PrefixOfSuffix(s, j, |r|);
    assert t == s[j..];
    assert t[|r|..] == s[j + |r|..];
  }

  /** Trimming leaves nothing exactly when the text is all whitespace. */
  lemma TrimEmptyExactly(s: string)
    ensures Trim(s) == "" <==> AllWhitespace(s)
  {
    var j := TrimCutsOnlyWhitespace(s);
    if Trim(s) == "" {
      forall i | 0 <= i < |s| ensures IsJsWhitespace(s[i]) {
        if i < j {
          assert s[i] == s[..j][i];
        } else {
          assert s[i] == s[j..][i - j];
        }
      }
    } else {
      assert s[j] == Trim(s)[0];
    }
  }

  /** A character other than whitespace survives indenting: only newlines are
      rewritten. */
  lemma {:induction false} IndentedKeepsText(s: string, k: nat, p: nat)
    requires p < |s| && !IsJsWhitespace(s[p])
    ensures !AllWhitespace(NewlinesIndented(s, k))
  {
    var head := if s[0] == '\n' then "\n" + Spaces(k) else [s[0]];
    var rest := NewlinesIndented(s[1..], k);
    var u := NewlinesIndented(s, k);
    assert u == head + rest;
    if p == 0 {
      assert u[0] == s[0];
    } else {
      assert s[1..][p - 1] == s[p];
      IndentedKeepsText(s[1..], k, p - 1);
      var i :| 0 <= i < |rest| && !IsJsWhitespace(rest[i]);
      assert u[|head| + i] == rest[i];
    }
  }

  lemma PrefixOfSuffix(s: string, j: nat, n: nat)
    requires j + n <= |s|
    ensures s[j..][..n] == s[j..j + n] && s[j..][n..] == s[j + n..]
  {
  }

  /** Trimming keeps the indent: the trimmed text ends with a character that
      is not whitespace, so the spaces after each of its newlines lie inside. */
  lemma TrimKeepsIndent(u: string, k: nat)
    requires IndentedBy(u, k)
    ensures IndentedBy(Trim(u), k)
  {
    var r := Trim(u);
    forall i | 0 <= i < |r| && r[i] == '\n'
      ensures i + k < |r| && r[i + 1..i + 1 + k] == Spaces(k)
    {
      TrimKeepsIndentAt(u, k, i);
    }
  }

  lemma TrimKeepsIndentAt(u: string, k: nat, i: nat)
    requires IndentedBy(u, k)
    requires i < |Trim(u)| && Trim(u)[i] == '\n'
    ensures i + k < |Trim(u)| && Trim(u)[i + 1..i + 1 + k] == Spaces(k)
  {
    var r := Trim(u);
    var j := TrimOffset(u);
    IndentInSlice(u, r, j, i, k);
  }

  lemma IndentInSlice(u: string, r: string, j: nat, i: nat, k: nat)
    requires IndentedBy(u, k)
    requires j + |r| <= |u| && r == u[j..j + |r|]
    requires i < |r| && r[i] == '\n' && r[|r| - 1] != ' ' && r[|r| - 1] != '\n'
    ensures i + k < |r| && r[i + 1..i + 1 + k] == Spaces(k)
  {
    assert u[j + i] == r[i];
    SpacesStayInside(u, r, j, i, k);
  }
}
