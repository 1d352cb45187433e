/**
  The element picker's selector builder and callback lifecycle.

  The DOM is abstracted to the clicked element's ancestor chain: `chain[0]`
  is the element, `chain[i + 1]` is the `parentNode` of `chain[i]`, and the
  last node (the document) has no parent. Each node carries its `localName`
  and its `id`, `class` and `name` attribute values, with "" standing for an
  absent attribute (the source tests them for truthiness, and `null` and ""
  are both falsy). `document.querySelectorAll(sel)` is the oracle `query(sel)`:
  `Some(true)` when it matches exactly one element, `Some(false)` when it
  matches none or several, and `None` when it throws because `sel` is not a
  valid selector.
 */
module DomSelector {
  import opened Text

  // ---------------------------------------------------------------------------
  // getQuery
  // ---------------------------------------------------------------------------

  /** `opt.ignoreElem`: tags the picker never attaches listeners to. */
  const IgnoreElem: seq<string> := ["head", "meta", "link", "style", "title", "script"]

  /** One `:not(tag)` per tag, in order. */
  function NotClauses(tags: seq<string>): string {
    if tags == [] then "" else NotClauses(tags[..|tags| - 1]) + ":not(" + tags[|tags| - 1] + ")"
  }

  /** Extending the tag list by its next tag adds that tag's clause. */
  lemma NotClausesSnoc(tags: seq<string>, i: nat)
    requires i < |tags|
    ensures NotClauses(tags[..i + 1]) == NotClauses(tags[..i]) + ":not(" + tags[i] + ")"
  {
    assert tags[..i + 1][..i] == tags[..i];
  }

  lemma QueryStep(query: string, tags: seq<string>, i: nat)
    requires i < |tags| && query == "*" + NotClauses(tags[..i])
    ensures query + ":not(" + tags[i] + ")" == "*" + NotClauses(tags[..i + 1])
  {
    NotClausesSnoc(tags, i);
  }

  /** Read from the front: the first tag's clause, then the others'. */
  lemma {:induction false} NotClausesCons(t: string, tags: seq<string>)
    ensures NotClauses([t] + tags) == ":not(" + t + ")" + NotClauses(tags)
    decreases |tags|
  {
    if tags == [] {
      assert ([t] + tags)[..0] == [];
    } else {
      var init := tags[..|tags| - 1];
      assert ([t] + tags)[..|tags|] == [t] + init;
      NotClausesCons(t, init);
    }
  }

  /** Concatenating tag lists concatenates their clauses. */
  lemma {:induction false} NotClausesAppend(a: seq<string>, b: seq<string>)
    ensures NotClauses(a + b) == NotClauses(a) + NotClauses(b)
    decreases |b|
  {
    if b == [] {
      assert a + b == a;
    } else {
      assert (a + b)[..|a + b| - 1] == a + b[..|b| - 1];
      NotClausesAppend(a, b[..|b| - 1]);
    }
  }

  /** `getQuery`: every element except the ignored tags. */
  method GetQuery() returns (query: string)
    ensures query == "*" + NotClauses(IgnoreElem)
  {
    query := "*";
    var ignore := IgnoreElem;
    var ignoreLen := |ignore|;
    if ignoreLen != 0 {
      for i := 0 to ignoreLen
        invariant query == "*" + NotClauses(ignore[..i])
      {
        QueryStep(query, ignore, i);
        query := query + ":not(" + ignore[i] + ")";
      }
    }
    assert ignore[..ignoreLen] == IgnoreElem;
  }

  // ---------------------------------------------------------------------------
  // getCssSelectorShort
  // ---------------------------------------------------------------------------

  /** A DOM node as the selector builder sees it. */
  datatype Node = Node(localName: string, id: string, cls: string, name: string)

  /** One selector segment: `#id`, or `localName.class.class[name=x]`. */
  datatype Segment = IdSegment(id: string) | TagSegment(localName: string, cls: string, name: string)

  /** `'.' + cl.trim().replace(/ +/g, '.')` for a present class attribute: a dot
      before each class, no spaces left, and nothing but the attribute's characters
      and dots; a class attribute of whitespace only gives the bare, invalid ".". */
  function ClassPart(cls: string): (r: string)
    ensures r == "" <==> cls == ""
    ensures cls != "" ==> r[0] == '.'
    ensures ' ' !in r
    ensures forall c :: c in r ==> c in cls || c == '.'
    ensures cls != "" && AllWhitespace(cls) ==> r == "."
  {
    if cls == "" then "" else "." + CollapseSpaceRuns(Trim(cls))
  }

  /** `'[name=' + name.trim() + ']'` for a present name attribute: an attribute
      selector that the later `[name=...]` replacement erases whole, unless the
      value itself holds a `]`. */
  function NamePart(name: string): (r: string)
    ensures r == "" <==> name == ""
    ensures name != "" ==> NamePrefix <= r && r[|r| - 1] == ']'
    ensures ']' !in name ==> StripNameAttrs(r) == ""
  {
    if name == "" then ""
    else
      NameAttrErased(Trim(name));
      "[name=" + Trim(name) + "]"
  }

  /** The replacement erases a whole `[name=v]` whose value has no `]`. */
  lemma NameAttrErased(v: string)
    ensures ']' !in v ==> StripNameAttrs("[name=" + v + "]") == ""
  {
    if ']' !in v {
      StripDropsNameAttr(v, "");
      assert "[name=" + v + "]" + "" == "[name=" + v + "]";
    }
  }

  /** A segment's text: the form used after the first segment, followed by the name
      part for a tag segment. */
  function Render(seg: Segment): (r: string)
    ensures seg.TagSegment? ==> r == RenderBare(seg) + NamePart(seg.name)
    ensures seg.IdSegment? ==> r == RenderBare(seg)
  {
    match seg
    case IdSegment(id) => "#" + id
    case TagSegment(localName, cls, name) => localName + ClassPart(cls) + NamePart(name)
  }

  /** A segment as it appears after the first one: without its `[name=...]`. */
  function RenderBare(seg: Segment): string {
    match seg
    case IdSegment(id) => "#" + id
    case TagSegment(localName, cls, _) => localName + ClassPart(cls)
  }

  function RenderAll(segs: seq<Segment>): (r: seq<string>)
    ensures |r| == |segs|
  {
    if segs == [] then [] else [Render(segs[0])] + RenderAll(segs[1..])
  }

  function RenderAllBare(segs: seq<Segment>): (r: seq<string>)
    ensures |r| == |segs|
  {
    if segs == [] then [] else [RenderBare(segs[0])] + RenderAllBare(segs[1..])
  }

  function TagOf(n: Node): Segment {
    TagSegment(n.localName, n.cls, n.name)
  }

  /** The segments of `chain[0..m]`, outermost first (what `unshift` builds). */
  function Tags(chain: seq<Node>, m: nat): (r: seq<Segment>)
    requires m <= |chain|
    ensures |r| == m
  {
    if m == 0 then [] else [TagOf(chain[m - 1])] + Tags(chain, m - 1)
  }

  /** The segment at position `k` is that of `chain[m - 1 - k]`. */
  lemma {:induction false} TagsAt(chain: seq<Node>, m: nat, k: nat)
    requires k < m <= |chain|
    ensures Tags(chain, m)[k] == TagOf(chain[m - 1 - k])
    decreases m
  {
    if k > 0 {
      TagsAt(chain, m - 1, k - 1);
    }
  }

  /** `querySelectorAll(sel).length === 1` for the selector the segments spell. */
  function UniqueBy(query: string -> Option<bool>): seq<Segment> -> bool {
    segs => query(Join(RenderAll(segs), " ")) == Some(true)
  }

  /** `querySelectorAll(sel)` throws for the selector the segments spell. */
  function ThrowsBy(query: string -> Option<bool>): seq<Segment> -> bool {
    segs => query(Join(RenderAll(segs), " ")).None?
  }

  /** The loop guard after `m` segments: the current node has a parent, and the
      selector is still empty or does not pick out exactly one element. */
  predicate Continues(chain: seq<Node>, isUnique: seq<Segment> -> bool, m: nat)
    requires m < |chain|
  {
    m + 1 < |chain| && (m == 0 || !isUnique(Tags(chain, m)))
  }

  /** The selector array the walk ends with, once it has added `m` tag segments. */
  function SegmentsFrom(chain: seq<Node>, isUnique: seq<Segment> -> bool, m: nat): seq<Segment>
    requires m < |chain|
    decreases |chain| - m
  {
    if Continues(chain, isUnique, m) then
      if chain[m].id != "" then [IdSegment(chain[m].id)] + Tags(chain, m)
      else SegmentsFrom(chain, isUnique, m + 1)
    else
      Tags(chain, m)
  }

  function Segments(chain: seq<Node>, query: string -> Option<bool>): seq<Segment>
    requires |chain| > 0
  {
    SegmentsFrom(chain, UniqueBy(query), 0)
  }

  /** Whether the walk, once it has added `m` tag segments, reaches a guard whose
      query throws. The guard queries only a non-empty selector of a node that has
      a parent; after an `#id` segment the loop is left without another guard. */
  predicate ThrowsFrom(chain: seq<Node>, isUnique: seq<Segment> -> bool, throws: seq<Segment> -> bool, m: nat)
    requires m < |chain|
    decreases |chain| - m
  {
    if m + 1 < |chain| && m != 0 && throws(Tags(chain, m)) then true
    else if Continues(chain, isUnique, m) && chain[m].id == "" then ThrowsFrom(chain, isUnique, throws, m + 1)
    else false
  }

  /** The walk throws only at a selector it queries, one per ancestor at most, and
      never when every selector of the chain's nodes is valid. */
  lemma {:induction false} ThrowsFromShape(chain: seq<Node>, isUnique: seq<Segment> -> bool,
                                           throws: seq<Segment> -> bool, start: nat)
    requires start < |chain|
    ensures ThrowsFrom(chain, isUnique, throws, start) ==>
              exists m :: start <= m && m + 1 < |chain| && m != 0 && throws(Tags(chain, m))
    ensures (forall m :: start <= m < |chain| && m != 0 ==> !throws(Tags(chain, m))) ==>
              !ThrowsFrom(chain, isUnique, throws, start)
    decreases |chain| - start
  {
    if !(start + 1 < |chain| && start != 0 && throws(Tags(chain, start)))
       && Continues(chain, isUnique, start) && chain[start].id == "" {
      ThrowsFromShape(chain, isUnique, throws, start + 1);
    }
  }

  /** How `getCssSelectorShort` ends: it returns a selector (`None` for `undefined`),
      or a `querySelectorAll` in its loop guard throws. */
  datatype SelectorOutcome = Returned(selector: Option<string>) | Threw

  /** What the walk produces: the segments of `chain[0..m]` for the node `m` it stopped
      at, preceded by `#id` when it stopped at a node with an id. The nodes it walked
      over have no id; it stopped at the root, at a unique selector, or at an id. */
  lemma {:induction false} SegmentsShape(chain: seq<Node>, isUnique: seq<Segment> -> bool, start: nat)
    returns (m: nat)
    requires start < |chain|
    requires forall k :: 0 <= k < start ==> Continues(chain, isUnique, k)
    requires forall k :: 0 <= k < start ==> chain[k].id == ""
    ensures start <= m < |chain|
    ensures forall k :: 0 <= k < m ==> chain[k].id == ""
    ensures forall k :: 0 <= k < m ==> Continues(chain, isUnique, k)
    ensures var segs := SegmentsFrom(chain, isUnique, start);
            || (segs == Tags(chain, m) && !Continues(chain, isUnique, m))
            || (segs == [IdSegment(chain[m].id)] + Tags(chain, m) && chain[m].id != ""
                && Continues(chain, isUnique, m))
    decreases |chain| - start
  {
    if Continues(chain, isUnique, start) && chain[start].id == "" {
      m := SegmentsShape(chain, isUnique, start + 1);
    } else {
      m := start;
    }
  }

  /** At most one segment per node that has a parent; `#id` only ever leads; the
      selector ends with the element's own segment. */
  lemma SegmentsBounds(chain: seq<Node>, isUnique: seq<Segment> -> bool)
    requires |chain| > 0
    ensures var segs := SegmentsFrom(chain, isUnique, 0);
            && |segs| <= |chain| - 1
            && (forall k :: 0 < k < |segs| ==> segs[k].TagSegment?)
            && (chain[0].id == "" && segs != [] ==> segs[|segs| - 1] == TagOf(chain[0]))
  {
    var m := SegmentsShape(chain, isUnique, 0);
    var segs := SegmentsFrom(chain, isUnique, 0);
    forall k | 0 < k < |segs| ensures segs[k].TagSegment? {
      if segs == Tags(chain, m) {
        TagsAt(chain, m, k);
      } else {
        TagsAt(chain, m, k - 1);
      }
    }
    if chain[0].id == "" && segs != [] {
      assert 0 < m;
      TagsAt(chain, m, m - 1);
      assert segs[|segs| - 1] == Tags(chain, m)[m - 1];
    }
  }

  /** `'[name='`. */
  const NamePrefix: string := "[name="

  /** The index of the first `c` in `s`. */
  function FirstIndexOf(s: string, c: char): (i: nat)
    requires c in s
    ensures i < |s| && s[i] == c && forall j :: 0 <= j < i ==> s[j] != c
  {
    if s[0] == c then 0 else 1 + FirstIndexOf(s[1..], c)
  }

  /** `s.replace(/\[name=[^\]]*]/g, '')`: scanning left to right, each `[name=`
      together with everything up to and including the next `]` is deleted; a
      `[name=` with no `]` after it stays. */
  function StripNameAttrs(s: string): (r: string)
    ensures |r| <= |s|
    ensures '[' !in s ==> r == s
    decreases |s|
  {
    if s == [] then []
    else if NamePrefix <= s && ']' in s[|NamePrefix|..] then
      assert s[0] == NamePrefix[0];
      StripNameAttrs(s[|NamePrefix| + FirstIndexOf(s[|NamePrefix|..], ']') + 1..])
    else
      [s[0]] + StripNameAttrs(s[1..])
  }

  /** Text without `[` passes through the replacement untouched. */
  lemma {:induction false} StripKeepsPlainPrefix(p: string, rest: string)
    requires '[' !in p
    ensures StripNameAttrs(p + rest) == p + StripNameAttrs(rest)
    decreases |p|
  {
    if p != [] {
      var s := p + rest;
      StripPlainHead(s);
      assert s[1..] == p[1..] + rest;
      StripKeepsPlainPrefix(p[1..], rest);
      assert p == [p[0]] + p[1..];
    } else {
      assert p + rest == rest;
    }
  }

  /** A first character other than `[` is kept. */
  lemma StripPlainHead(s: string)
    requires s != [] && s[0] != '['
    ensures StripNameAttrs(s) == [s[0]] + StripNameAttrs(s[1..])
  {
    assert !(NamePrefix <= s) by {
      assert NamePrefix[0] == '[';
    }
  }

  /** A `[name=n]` whose value has no `]` is deleted whole. */
  lemma StripDropsNameAttr(n: string, rest: string)
    requires ']' !in n
    ensures StripNameAttrs("[name=" + n + "]" + rest) == StripNameAttrs(rest)
  {
    var s := "[name=" + n + "]" + rest;
    assert NamePrefix <= s;
    assert s[|NamePrefix|..] == n + "]" + rest;
    assert (n + "]" + rest)[|n|] == ']';
    assert FirstIndexOf(s[|NamePrefix|..], ']') == |n|;
    assert s[|NamePrefix| + |n| + 1..] == rest;
  }

  /** No attribute value of the segment can confuse the replacement: no `[` before
      the name part and no `]` inside the name. */
  predicate StripSafe(seg: Segment) {
    match seg
    case IdSegment(id) => '[' !in id
    case TagSegment(localName, cls, name) => '[' !in localName && '[' !in cls && ']' !in name
  }

  /** The tag, class and name of a segment cannot confuse the replacement. */
  lemma StripTagSegment(localName: string, cls: string, name: string, rest: string)
    requires '[' !in localName && '[' !in cls && ']' !in name
    ensures StripNameAttrs(Render(TagSegment(localName, cls, name)) + rest)
            == RenderBare(TagSegment(localName, cls, name)) + StripNameAttrs(rest)
  {
    var bare := localName + ClassPart(cls);
    var tail := NamePart(name) + rest;
    NoOpenBracket(localName, cls);
    StripKeepsPlainPrefix(bare, tail);
    StripNamePart(name, rest);
    RenderSplit(localName, cls, name, rest);
  }

  lemma RenderSplit(localName: string, cls: string, name: string, rest: string)
    ensures Render(TagSegment(localName, cls, name)) + rest
            == (localName + ClassPart(cls)) + (NamePart(name) + rest)
  {
    ConcatAssoc(localName, ClassPart(cls), NamePart(name), rest);
  }

  lemma ConcatAssoc(x: string, y: string, z: string, rest: string)
    ensures (x + y + z) + rest == (x + y) + (z + rest)
  {
  }

  lemma StripNamePart(name: string, rest: string)
    requires ']' !in name
    ensures StripNameAttrs(NamePart(name) + rest) == StripNameAttrs(rest)
  {
    if name != "" {
      var n := Trim(name);
      assert ']' !in n;
      assert NamePart(name) + rest == "[name=" + n + "]" + rest;
      StripDropsNameAttr(n, rest);
    } else {
      assert NamePart(name) + rest == rest;
    }
  }

  lemma NoOpenBracket(localName: string, cls: string)
    requires '[' !in localName && '[' !in cls
    ensures '[' !in localName + ClassPart(cls)
  {
    assert '[' !in ClassPart(cls);
  }

  lemma StripSegment(seg: Segment, rest: string)
    requires StripSafe(seg)
    ensures StripNameAttrs(Render(seg) + rest) == RenderBare(seg) + StripNameAttrs(rest)
  {
    match seg
    case IdSegment(id) =>
      StripKeepsPlainPrefix("#" + id, rest);
    case TagSegment(localName, cls, name) =>
      StripTagSegment(localName, cls, name, rest);
  }

  /** Joined with `' > '`, safe segments lose exactly their `[name=...]` parts. */
  lemma {:induction false} StripJoined(segs: seq<Segment>)
    requires segs != []
    requires forall k :: 0 <= k < |segs| ==> StripSafe(segs[k])
    ensures StripNameAttrs(Join(RenderAll(segs), " > ")) == Join(RenderAllBare(segs), " > ")
    decreases |segs|
  {
    if |segs| == 1 {
      StripJoinedOne(segs[0]);
      assert segs == [segs[0]];
    } else {
      var tail := segs[1..];
      assert forall k :: 0 <= k < |tail| ==> tail[k] == segs[k + 1];
      StripJoined(tail);
      StripJoinedCons(segs[0], tail);
      assert segs == [segs[0]] + tail;
    }
  }

  /** The base case of `StripJoined`: one safe segment. */
  lemma StripJoinedOne(head: Segment)
    requires StripSafe(head)
    ensures StripNameAttrs(Join(RenderAll([head]), " > ")) == Join(RenderAllBare([head]), " > ")
  {
    assert RenderAll([head]) == [Render(head)];
    assert RenderAllBare([head]) == [RenderBare(head)];
    StripSegment(head, "");
    assert Render(head) + "" == Render(head);
    assert RenderBare(head) + "" == RenderBare(head);
  }

  /** The step of `StripJoined`: a safe segment in front of segments that already
      lose exactly their `[name=...]` parts. */
  lemma StripJoinedCons(head: Segment, tail: seq<Segment>)
    requires StripSafe(head) && tail != []
    requires StripNameAttrs(Join(RenderAll(tail), " > ")) == Join(RenderAllBare(tail), " > ")
    ensures StripNameAttrs(Join(RenderAll([head] + tail), " > ")) == Join(RenderAllBare([head] + tail), " > ")
  {
    var rest := Join(RenderAll(tail), " > ");
    JoinRenderCons(head, tail);
    StripSegment(head, " > " + rest);
    StripKeepsPlainPrefix(" > ", rest);
  }

  /** Both renderings of `[head] + tail`, joined with `' > '`, are the head's text,
      `' > '` and the joined tail. */
  lemma JoinRenderCons(head: Segment, tail: seq<Segment>)
    requires tail != []
    ensures Join(RenderAll([head] + tail), " > ") == Render(head) + (" > " + Join(RenderAll(tail), " > "))
    ensures Join(RenderAllBare([head] + tail), " > ") == RenderBare(head) + (" > " + Join(RenderAllBare(tail), " > "))
  {
    var segs := [head] + tail;
    assert segs[1..] == tail;
    assert RenderAll(segs) == [Render(head)] + RenderAll(tail);
    assert RenderAllBare(segs) == [RenderBare(head)] + RenderAllBare(tail);
    JoinCons(Render(head), RenderAll(tail), " > ");
    JoinCons(RenderBare(head), RenderAllBare(tail), " > ");
  }

  /** The final string: the first segment as is, then `' > '` and the others joined
      by `' > '` with the replacement applied; `None` (JavaScript `undefined`) for an
      empty selector array. */
  function Compose(segs: seq<Segment>): Option<string> {
    if segs == [] then None
    else if |segs| == 1 then Some(Render(segs[0]))
    else Some(Render(segs[0]) + " > " + StripNameAttrs(Join(RenderAll(segs[1..]), " > ")))
  }

  /** With attribute values free of brackets, the result keeps the first segment whole
      and every later segment without its `[name=...]`. */
  lemma ComposeKeepsOnlyFirstName(segs: seq<Segment>)
    requires segs != []
    requires forall k :: 0 < k < |segs| ==> StripSafe(segs[k])
    ensures Compose(segs) == Some(Join([Render(segs[0])] + RenderAllBare(segs[1..]), " > "))
  {
    if |segs| > 1 {
      StripJoined(segs[1..]);
      var tail := RenderAllBare(segs[1..]);
      assert ([Render(segs[0])] + tail)[1..] == tail;
    }
  }

  /** `getCssSelectorShort`. */
  function CssSelectorShort(chain: seq<Node>, query: string -> Option<bool>): SelectorOutcome
    requires |chain| > 0
  {
    if chain[0].id != "" then Returned(Some("#" + chain[0].id))
    else if ThrowsFrom(chain, UniqueBy(query), ThrowsBy(query), 0) then Threw
    else Returned(Compose(Segments(chain, query)))
  }

  /** `getCssSelectorShort`, as the source's loop. */
  method GetCssSelectorShort(chain: seq<Node>, query: string -> Option<bool>) returns (result: SelectorOutcome)
    requires |chain| > 0
    ensures result == CssSelectorShort(chain, query)
    ensures chain[0].id != "" ==> result == Returned(Some("#" + chain[0].id))
  {
    ghost var isUnique := UniqueBy(query);
    ghost var throws := ThrowsBy(query);
    var elementId := chain[0].id;
    if elementId != "" {
      return Returned(Some("#" + elementId));
    }
    var element := 0;
    var selector: seq<Segment> := [];
    while element + 1 < |chain|
      invariant 0 <= element < |chain|
      invariant selector == Tags(chain, element)
      invariant SegmentsFrom(chain, isUnique, element) == Segments(chain, query)
      invariant ThrowsFrom(chain, isUnique, throws, element) == ThrowsFrom(chain, isUnique, throws, 0)
      decreases |chain| - element
    {
      if |selector| != 0 {
        var found := query(Join(RenderAll(selector), " "));
        if found.None? {
          return Threw;
        }
        if found.value {
          break;
        }
      }
      var id := chain[element].id;
      if id != "" {
        selector := [IdSegment(id)] + selector;
        break;
      }
      selector := [TagOf(chain[element])] + selector;
      element := element + 1;
    }
    assert selector == Segments(chain, query);
    assert !ThrowsFrom(chain, isUnique, throws, 0);
    var composed := ComposeSelector(selector);
    return Returned(composed);
  }

  /** The tail of `getCssSelectorShort`: the first segment, then the others. */
  method ComposeSelector(selector: seq<Segment>) returns (result: Option<string>)
    ensures result == Compose(selector)
  {
    if |selector| == 0 {
      return None;
    }
    var res := Render(selector[0]);
    if |selector| > 1 {
      res := res + " > " + StripNameAttrs(Join(RenderAll(selector[1..]), " > "));
    }
    return Some(res);
  }

  /** A selector is returned whenever every selector the walk could query is valid;
      a throw comes from a selector of the element's own ancestors. */
  lemma SelectorThrowsOnlyOnInvalid(chain: seq<Node>, query: string -> Option<bool>)
    requires |chain| > 0
    ensures (forall m :: 0 < m < |chain| ==> query(Join(RenderAll(Tags(chain, m)), " ")).Some?) ==>
              CssSelectorShort(chain, query).Returned?
    ensures CssSelectorShort(chain, query).Threw? ==>
              exists m :: 0 < m && m + 1 < |chain| && query(Join(RenderAll(Tags(chain, m)), " ")).None?
  {
    ThrowsFromShape(chain, UniqueBy(query), ThrowsBy(query), 0);
  }

  // ---------------------------------------------------------------------------
  // The callback lifecycle
  // ---------------------------------------------------------------------------

  /** One call of a selection callback: which callback, in which `init` session, with
      which argument (`Some("")` on Escape). */
  datatype Firing = Firing(callback: nat, session: nat, selector: Option<string>)

  /** Each session fired at most once: sessions strictly increase along the log. */
  predicate OncePerSession(fired: seq<Firing>) {
    forall i, j :: 0 <= i < j < |fired| ==> fired[i].session < fired[j].session
  }

  /** The picker's module state: `callbackFunction` (a handle, `None` for null),
      whether the element listeners and the keyup listener are attached, whether the
      highlight is shown, the count of `init` calls, and the log of callback calls. */
  class Picker {
    var callback: Option<nat>
    var listening: bool
    var escapeListening: bool
    /** The highlight is shown: `handleCloseClick` and `freezeDomEvent` sit on the
        document in the capture phase, from `highlightActiveElem` until `closeHighlight`. */
    var highlighted: bool
    var session: nat
    var fired: seq<Firing>

    /** The log fires each session at most once and never a future one. */
    ghost predicate LogValid()
      reads this
    {
      && OncePerSession(fired)
      && (forall i :: 0 <= i < |fired| ==> fired[i].session <= session)
    }

    /** ... and while a callback is armed, its session has not fired yet. */
    ghost predicate Valid()
      reads this
    {
      && LogValid()
      && (callback.Some? ==> forall i :: 0 <= i < |fired| ==> fired[i].session < session)
    }

    constructor ()
      ensures Valid() && callback.None? && !listening && !escapeListening && !highlighted
      ensures session == 0 && fired == []
    {
      callback := None;
      listening := false;
      escapeListening := false;
      highlighted := false;
      session := 0;
      fired := [];
    }

    /** `init(type, callback)`: store the callback, attach (or detach) the element
        listeners, and attach the Escape listener. */
    method Init(start: bool, cb: Option<nat>)
      requires Valid()
      modifies this
      ensures Valid()
      ensures callback == cb && session == old(session) + 1 && fired == old(fired)
      ensures listening == start && escapeListening && highlighted == old(highlighted)
    {
      callback := cb;
      session := session + 1;
      listening := start;
      escapeListening := true;
    }

    /** `stop()`: detach every listener and drop the callback. */
    method Stop()
      requires LogValid()
      modifies this
      ensures Valid()
      ensures callback.None? && !listening && !escapeListening
      ensures session == old(session) && fired == old(fired) && highlighted == old(highlighted)
    {
      listening := false;
      escapeListening := false;
      callback := None;
    }

    /** A keyup reaching `keyPress`: Escape closes the highlight, then calls the
        callback with "" and stops. */
    method KeyUp(key: string)
      requires Valid()
      modifies this
      ensures Valid() && session == old(session)
      ensures highlighted == (old(highlighted) && !(old(escapeListening) && key == "Escape"))
      ensures if EscapeFires(old(escapeListening), key, old(callback))
              then fired == old(fired) + [Firing(old(callback).value, session, Some(""))]
                   && callback.None? && !listening && !escapeListening
              else fired == old(fired) && callback == old(callback)
                   && listening == old(listening) && escapeListening == old(escapeListening)
    {
      if escapeListening && key == "Escape" {
        highlighted := false;
        if callback.Some? {
          fired := fired + [Firing(callback.value, session, Some(""))];
          Stop();
        }
      }
    }

    /** A click on the element whose ancestor chain is `chain`. While the highlight is
        shown, the document's capture-phase `handleCloseClick` takes the click first and
        stops it there; it closes the highlight when the click lands outside the
        highlighted box in all four coordinates (`outsideBox`). Otherwise, while the
        picker listens, the click bubbles to the nearest listened element (at worst
        `html`) and `highlightActiveElem` shows the highlight, then builds the selector
        of the clicked element: the callback gets it and the picker stops. When
        building the selector throws, the handler is left before the callback, and the
        picker stays armed, listening and highlighted. */
    method Click(chain: seq<Node>, query: string -> Option<bool>, outsideBox: bool)
      requires Valid() && |chain| > 0
      modifies this
      ensures Valid() && session == old(session)
      ensures highlighted == (if old(highlighted) then !outsideBox else old(listening))
      ensures if ClickFires(old(highlighted), old(listening), chain, query, old(callback))
              then fired == old(fired) + [Firing(old(callback).value, session, CssSelectorShort(chain, query).selector)]
                   && callback.None? && !listening && !escapeListening
              else fired == old(fired) && callback == old(callback)
                   && listening == old(listening) && escapeListening == old(escapeListening)
    {
      if highlighted {
        if outsideBox {
          highlighted := false;
        }
        return;
      }
      if listening {
        highlighted := true;
        var outcome := GetCssSelectorShort(chain, query);
        if outcome.Threw? {
          return;
        }
        if callback.Some? {
          fired := fired + [Firing(callback.value, session, outcome.selector)];
          Stop();
        }
      }
    }
  }

  /** Whether a click fires the callback: no highlight is shown to swallow it, the
      picker listens, the clicked element's selector is built without a throw, and a
      callback is armed. */
  predicate ClickFires(highlighted: bool, listening: bool, chain: seq<Node>, query: string -> Option<bool>, callback: Option<nat>)
    requires |chain| > 0
  {
    !highlighted && listening && CssSelectorShort(chain, query).Returned? && callback.Some?
  }

  /** Whether a keyup fires the callback. */
  predicate EscapeFires(listening: bool, key: string, callback: Option<nat>) {
    listening && key == "Escape" && callback.Some?
  }
}
