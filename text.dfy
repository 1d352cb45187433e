/**
  String helpers shared by the background worker, the content script and the
  element picker: the JavaScript built-ins `String.prototype.trim`,
  `String.prototype.includes`, `Array.prototype.join` and the regular-expression
  replacement `replace(/ +/g, '.')`, stated over `seq<char>`.
 */
module Text {

  datatype Option<+T> = None | Some(value: T) {
    function GetOr(default: T): T {
      match this
      case Some(v) => v
      case None => default
    }
  }

  /** The characters `trim` removes: ECMAScript WhiteSpace and LineTerminator. */
  const JsWhitespace: set<char> := {
    '\t', '\n', '\U{000B}', '\U{000C}', '\r', ' ', '\U{00A0}', '\U{1680}',
    '\U{2000}', '\U{2001}', '\U{2002}', '\U{2003}', '\U{2004}', '\U{2005}',
    '\U{2006}', '\U{2007}', '\U{2008}', '\U{2009}', '\U{200A}',
    '\U{2028}', '\U{2029}', '\U{202F}', '\U{205F}', '\U{3000}', '\U{FEFF}'
  }

  predicate IsJsWhitespace(c: char) {
    c in JsWhitespace
  }

  predicate AllWhitespace(s: string) {
    forall i :: 0 <= i < |s| ==> IsJsWhitespace(s[i])
  }

  /** `s` with its leading whitespace removed: a suffix of `s`. */
  function TrimStart(s: string): (r: string)
    ensures |r| <= |s| && r == s[|s| - |r|..]
    ensures AllWhitespace(s[..|s| - |r|])
    ensures r == [] || !IsJsWhitespace(r[0])
  {
    if s != [] && IsJsWhitespace(s[0]) then
      var t := s[1..];
      var r := TrimStart(t);
      assert s[..|s| - |r|] == [s[0]] + t[..|t| - |r|];
      AllWhitespaceConcat([s[0]], t[..|t| - |r|]);
      r
    else
      s
  }

  /** `s` with its trailing whitespace removed: a prefix of `s`. */
  function TrimEnd(s: string): (r: string)
    ensures |r| <= |s| && r == s[..|r|]
    ensures AllWhitespace(s[|r|..])
    ensures r == [] || !IsJsWhitespace(r[|r| - 1])
  {
    if s != [] && IsJsWhitespace(s[|s| - 1]) then
      var t := s[..|s| - 1];
      var r := TrimEnd(t);
      assert s[|r|..] == t[|r|..] + [s[|s| - 1]];
      AllWhitespaceConcat(t[|r|..], [s[|s| - 1]]);
      r
    else
      s
  }

  /** `String.prototype.trim`. */
  function Trim(s: string): (r: string)
    ensures |r| <= |s|
    ensures r == [] || (!IsJsWhitespace(r[0]) && !IsJsWhitespace(r[|r| - 1]))
    ensures r == [] <==> AllWhitespace(s)
    ensures forall c :: c in r ==> c in s
    ensures exists i, j :: 0 <= i <= j <= |s| && r == s[i..j] && AllWhitespace(s[..i]) && AllWhitespace(s[j..])
  {
    var a := TrimStart(s);
    var r := TrimEnd(a);
    TrimEdges(a, r);
    TrimEmpty(s, a, r);
    TrimChars(s, a, r);
    TrimSlice(s, a, r);
    r
  }

  /** What trimming keeps is the input between a leading and a trailing run of
      whitespace. */
  lemma TrimSlice(s: string, a: string, r: string)
    requires |a| <= |s| && a == s[|s| - |a|..] && AllWhitespace(s[..|s| - |a|])
    requires |r| <= |a| && r == a[..|r|] && AllWhitespace(a[|r|..])
    ensures exists i, j :: 0 <= i <= j <= |s| && r == s[i..j] && AllWhitespace(s[..i]) && AllWhitespace(s[j..])
  {
    var i := |s| - |a|;
    var j := i + |r|;
    assert r == s[i..j];
    assert s[j..] == a[|r|..];
  }

  /** Cutting trailing whitespace off a string without leading whitespace leaves
      whitespace at neither end. */
  lemma TrimEdges(a: string, r: string)
    requires a == [] || !IsJsWhitespace(a[0])
    requires |r| <= |a| && r == a[..|r|]
    requires r == [] || !IsJsWhitespace(r[|r| - 1])
    ensures r == [] || (!IsJsWhitespace(r[0]) && !IsJsWhitespace(r[|r| - 1]))
  {
    if r != [] {
      assert r[0] == a[0];
    }
  }

  /** Trimming leaves nothing exactly when everything was whitespace. */
  lemma TrimEmpty(s: string, a: string, r: string)
    requires |a| <= |s| && a == s[|s| - |a|..] && AllWhitespace(s[..|s| - |a|])
    requires a == [] || !IsJsWhitespace(a[0])
    requires |r| <= |a| && r == a[..|r|] && AllWhitespace(a[|r|..])
    ensures r == [] <==> AllWhitespace(s)
  {
    var k := |s| - |a|;
    if r == [] {
      assert a[|r|..] == a;
      AllWhitespaceConcat(s[..k], a);
      assert s[..k] + a == s;
    } else {
      assert s[k] == a[0];
    }
  }

  /** What trimming keeps is a slice of the input. */
  lemma TrimChars(s: string, a: string, r: string)
    requires |a| <= |s| && a == s[|s| - |a|..]
    requires |r| <= |a| && r == a[..|r|]
    ensures forall c :: c in r ==> c in s
  {
    var k := |s| - |a|;
    assert r == s[k..k + |r|];
    SliceChars(s, k, k + |r|);
  }

  lemma SliceChars(s: string, lo: nat, hi: nat)
    requires lo <= hi <= |s|
    ensures forall c :: c in s[lo..hi] ==> c in s
  {
    forall c | c in s[lo..hi] ensures c in s {
      var i :| 0 <= i < hi - lo && s[lo..hi][i] == c;
      assert s[lo + i] == c;
    }
  }

  lemma AllWhitespaceConcat(x: string, y: string)
    requires AllWhitespace(x) && AllWhitespace(y)
    ensures AllWhitespace(x + y)
  {
    forall i | 0 <= i < |x + y| ensures IsJsWhitespace((x + y)[i]) {
      if i < |x| {
        assert (x + y)[i] == x[i];
      } else {
        assert (x + y)[i] == y[i - |x|];
      }
    }
  }

  lemma {:induction false} TrimIdempotent(s: string)
    ensures Trim(Trim(s)) == Trim(s)
  {
    var t := Trim(s);
    if t != [] {
      assert TrimStart(t) == t;
      assert TrimEnd(t) == t;
    }
  }

  /** `sub` occurs in `s` starting at offset `i`. */
  predicate OccursAt(s: string, sub: string, i: int) {
    0 <= i && i + |sub| <= |s| && s[i..i + |sub|] == sub
  }

  /** `s.includes(sub)`: `sub` occurs in `s` at some offset. */
  function Includes(s: string, sub: string): (b: bool)
    ensures b <==> exists i :: OccursAt(s, sub, i)
  {
    if sub <= s then
      assert OccursAt(s, sub, 0);
      true
    else if s == [] then
      false
    else
      var b := Includes(s[1..], sub);
      assert b ==> exists i :: OccursAt(s, sub, i) by {
        if b {
          var i :| OccursAt(s[1..], sub, i);
          OccursShift(s, sub, i);
        }
      }
      assert (exists i :: OccursAt(s, sub, i)) ==> b by {
        if exists i :: OccursAt(s, sub, i) {
          var i :| OccursAt(s, sub, i);
          assert i == 0 ==> sub <= s;
          OccursShift(s, sub, i - 1);
        }
      }
      b
  }

  /** An occurrence in the tail is an occurrence one further on in the whole. */
  lemma OccursShift(s: string, sub: string, i: nat)
    requires s != []
    ensures OccursAt(s[1..], sub, i) <==> OccursAt(s, sub, i + 1)
  {
    if i + |sub| <= |s| - 1 {
      assert s[1..][i..i + |sub|] == s[i + 1..i + 1 + |sub|];
    }
  }

  /** `parts.join(sep)`. */
  function Join(parts: seq<string>, sep: string): string {
    if |parts| == 0 then ""
    else if |parts| == 1 then parts[0]
    else parts[0] + sep + Join(parts[1..], sep)
  }

  lemma JoinCons(x: string, xs: seq<string>, sep: string)
    requires xs != []
    ensures Join([x] + xs, sep) == x + (sep + Join(xs, sep))
  {
    assert ([x] + xs)[1..] == xs;
  }

  /** `s` without its leading run of U+0020 spaces. */
  function DropSpaces(s: string): (r: string)
    ensures |r| <= |s| && r == s[|s| - |r|..]
    ensures r == [] || r[0] != ' '
  {
    if s != [] && s[0] == ' ' then DropSpaces(s[1..]) else s
  }

  /** `s.replace(/ +/g, '.')`: every maximal run of U+0020 spaces becomes one dot. */
  function CollapseSpaceRuns(s: string): (r: string)
    ensures |r| <= |s|
    ensures ' ' !in r
    ensures forall c :: c in r ==> c in s || c == '.'
    ensures ' ' !in s ==> r == s
  {
    if s == [] then []
    else if s[0] == ' ' then
      var rest := DropSpaces(s);
      SliceChars(s, |s| - |rest|, |s|);
      "." + CollapseSpaceRuns(rest)
    else
      SliceChars(s, 1, |s|);
      [s[0]] + CollapseSpaceRuns(s[1..])
  }

  predicate AllSpaces(sp: string) {
    forall i :: 0 <= i < |sp| ==> sp[i] == ' '
  }

  /** Dropping the leading spaces of a run of spaces followed by text that does not
      start with a space leaves that text. */
  lemma {:induction false} DropSpacesRun(sp: string, y: string)
    requires AllSpaces(sp) && (y == [] || y[0] != ' ')
    ensures DropSpaces(sp + y) == y
    decreases |sp|
  {
    if sp == [] {
      assert sp + y == y;
    } else {
      assert (sp + y)[0] == ' ';
      assert (sp + y)[1..] == sp[1..] + y;
      DropSpacesRun(sp[1..], y);
    }
  }

  /** A maximal run of spaces becomes one dot, and the text before it is kept. */
  lemma {:induction false} CollapseRun(x: string, sp: string, y: string)
    requires ' ' !in x && sp != [] && AllSpaces(sp) && (y == [] || y[0] != ' ')
    ensures CollapseSpaceRuns(x + sp + y) == x + "." + CollapseSpaceRuns(y)
    decreases |x|
  {
    if x == [] {
      assert x + sp + y == sp + y;
      assert (sp + y)[0] == ' ';
      DropSpacesRun(sp, y);
    } else {
      var s := x + sp + y;
      var tail := CollapseSpaceRuns(y);
      assert s[0] == x[0] && x[0] != ' ';
      assert s[1..] == x[1..] + sp + y;
      CollapseHead(s);
      CollapseRun(x[1..], sp, y);
      ConsAssoc(x, ".", tail);
    }
  }

  /** A first character other than a space is kept. */
  lemma CollapseHead(s: string)
    requires s != [] && s[0] != ' '
    ensures CollapseSpaceRuns(s) == [s[0]] + CollapseSpaceRuns(s[1..])
  {
  }

  lemma ConsAssoc(x: string, d: string, t: string)
    requires x != []
    ensures [x[0]] + (x[1..] + d + t) == x + d + t
  {
    assert [x[0]] + x[1..] == x;
  }
}
