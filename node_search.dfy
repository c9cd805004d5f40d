/**
 * The queries a node answers about its subtree (NodeField.searchOffset,
 * firstTextNode, searchString, search_eq, search_in and searchNode):
 * recursive functions that state what each query returns, the
 * properties those answers have on a well-formed tree, and a method that
 * walks the tree the way searchNode does and is proved to return the
 * same list as the function.
 */
module NodeSearch {
  import opened Common
  import opened NodeField

  // ---------------------------------------------------------------------
  // searchOffset / firstTextNode
  // ---------------------------------------------------------------------

  /**
   * NodeField.searchOffset: the text leaf whose interval holds `o`,
   * trying children left to right and keeping the first hit.
   */
  function SearchOffset(n: Node, o: int): (r: Option<Node>)
    ensures r.Some? ==> r.value.TextNode? && r.value.offset <= o < r.value.offset + r.value.size
    decreases n
  {
    match n
    case TextNode(offset, size, _, _, _) => if offset <= o < offset + size then Some(n) else None
    case FormatNode(_, _, _) => None
    case ControlNode(_, _, _, _, _, _, _, _, _, _, _, children) => SearchOffsetIn(children, o)
  }

  function SearchOffsetIn(ns: seq<Node>, o: int): (r: Option<Node>)
    ensures r.Some? ==> r.value.TextNode? && r.value.offset <= o < r.value.offset + r.value.size
    decreases ns
  {
    if ns == [] then None
    else
      var hit := SearchOffset(ns[0], o);
      if hit.Some? then hit else SearchOffsetIn(ns[1..], o)
  }

  /** The leaf searchOffset returns is one of the subtree's text leaves. */
  lemma {:induction false} SearchOffsetIsLeaf(n: Node, o: int)
    ensures SearchOffset(n, o).Some? ==> SearchOffset(n, o).value in TextLeaves(n)
    decreases n
  {
    if n.ControlNode? {
      SearchOffsetInIsLeaf(n.children, o);
    }
  }

  lemma {:induction false} SearchOffsetInIsLeaf(ns: seq<Node>, o: int)
    ensures SearchOffsetIn(ns, o).Some? ==> SearchOffsetIn(ns, o).value in LeavesOf(ns)
    decreases ns
  {
    if ns != [] {
      SearchOffsetIsLeaf(ns[0], o);
      SearchOffsetInIsLeaf(ns[1..], o);
    }
  }

  /**
   * On a well-formed tree searchOffset finds a leaf exactly when the
   * offset lies inside the node's interval: the leaves tile the text.
   */
  lemma {:induction false} SearchOffsetCovers(n: Node, o: int)
    requires WellFormed(n)
    ensures SearchOffset(n, o).Some? <==> (n.offset <= o < n.offset + n.size && !n.FormatNode?)
    decreases n
  {
    if n.ControlNode? {
      SearchOffsetInCovers(n.children, n.offset, o);
    }
  }

  lemma {:induction false} SearchOffsetInCovers(ns: seq<Node>, start: int, o: int)
    requires Contiguous(ns, start)
    requires forall c | c in ns :: WellFormed(c)
    ensures SearchOffsetIn(ns, o).Some? <==> start <= o < start + SumSizes(ns)
    decreases ns
  {
    if ns != [] {
      SearchOffsetCovers(ns[0], o);
      SearchOffsetInCovers(ns[1..], start + ns[0].size, o);
      SizeNonNegative(ns[0]);
      SumSizesNonNegative(ns[1..]);
    }
  }

  /**
   * The leaf that holds an offset is unique on a well-formed tree, so
   * searchOffset returns it whichever leaf the caller had in mind.
   */
  lemma SearchOffsetUnique(n: Node, leaf: Node, o: int)
    requires WellFormed(n)
    requires leaf in TextLeaves(n) && leaf.offset <= o < leaf.offset + leaf.size
    ensures SearchOffset(n, o) == Some(leaf)
  {
    LeavesOrdered(n);
    LeavesReachable(n);
    LeavesInSpanCovers(n, leaf, o);
    var r := SearchOffset(n, o);
    SearchOffsetIsLeaf(n, o);
    var ls := TextLeaves(n);
    var i :| 0 <= i < |ls| && ls[i] == leaf;
    var j :| 0 <= j < |ls| && ls[j] == r.value;
    assert ls[i].offset <= o < ls[i].offset + ls[i].size;
    assert ls[j].offset <= o < ls[j].offset + ls[j].size;
  }

  /** A leaf holding `o` puts `o` inside the subtree's interval, so searchOffset finds something. */
  lemma LeavesInSpanCovers(n: Node, leaf: Node, o: int)
    requires WellFormed(n)
    requires leaf in TextLeaves(n) && leaf.offset <= o < leaf.offset + leaf.size
    ensures SearchOffset(n, o).Some?
  {
    LeavesOrdered(n);
    LeavesReachable(n);
    SearchOffsetCovers(n, o);
  }

  /** NodeField.firstTextNode: the leaf at the node's own start offset. */
  function FirstTextNode(n: Node): (r: Option<Node>)
    ensures r.Some? ==> r.value.TextNode? && r.value.offset <= n.offset < r.value.offset + r.value.size
  {
    SearchOffset(n, n.offset)
  }

  /**
   * A well-formed non-format node with some text has a first text leaf:
   * it is one of its leaves, it starts where the node starts, and every
   * leaf that precedes it in document order is empty.
   */
  lemma FirstTextNodeIsFirstLeaf(n: Node)
    requires WellFormed(n) && n.size > 0 && !n.FormatNode?
    ensures FirstTextNode(n).Some?
    ensures FirstTextNode(n).value in TextLeaves(n)
    ensures FirstTextNode(n).value.offset == n.offset
    ensures forall i | 0 <= i < |TextLeaves(n)| && TextLeaves(n)[i].offset < FirstTextNode(n).value.offset + FirstTextNode(n).value.size ::
              TextLeaves(n)[i] == FirstTextNode(n).value || TextLeaves(n)[i].size == 0
  {
    SearchOffsetCovers(n, n.offset);
    SearchOffsetIsLeaf(n, n.offset);
    var r := FirstTextNode(n).value;
    LeavesOrdered(n);
    LeavesWellFormed(n);
    var ls := TextLeaves(n);
    var j :| 0 <= j < |ls| && ls[j] == r;
    forall i | 0 <= i < |ls| && ls[i].offset < r.offset + r.size
      ensures ls[i] == r || ls[i].size == 0
    {
      SizeNonNegative(ls[i]);
      if i < j {
        assert ls[i].offset + ls[i].size <= ls[j].offset;
      }
    }
  }

  /** The leaves of a well-formed tree are well-formed. */
  lemma {:induction false} LeavesWellFormed(n: Node)
    requires WellFormed(n)
    ensures forall m | m in TextLeaves(n) :: WellFormed(m)
    decreases n
  {
    if n.ControlNode? {
      LeavesOfWellFormed(n.children);
    }
  }

  lemma {:induction false} LeavesOfWellFormed(ns: seq<Node>)
    requires forall c | c in ns :: WellFormed(c)
    ensures forall m | m in LeavesOf(ns) :: WellFormed(m)
    decreases ns
  {
    if ns != [] {
      LeavesWellFormed(ns[0]);
      LeavesOfWellFormed(ns[1..]);
    }
  }

  /**
   * The control whose child is the leaf searchOffset returns: the
   * `parent` attribute the navigation scripts read.
   */
  function SearchOffsetParent(n: Node, o: int): (r: Option<Node>)
    ensures r.Some? ==> r.value.ControlNode?
    decreases n
  {
    if n.ControlNode? then ParentIn(n, n.children, o) else None
  }

  function ParentIn(p: Node, ns: seq<Node>, o: int): (r: Option<Node>)
    requires p.ControlNode?
    ensures r.Some? ==> r.value.ControlNode?
    decreases ns
  {
    if ns == [] then None
    else if SearchOffset(ns[0], o).Some? then
      (if ns[0].TextNode? then Some(p) else SearchOffsetParent(ns[0], o))
    else ParentIn(p, ns[1..], o)
  }

  /**
   * Whenever a control finds a leaf, the parent lookup finds the control
   * in its subtree that holds that leaf as a direct child.
   */
  lemma {:induction false} ParentHoldsLeaf(n: Node, o: int)
    requires n.ControlNode? && SearchOffset(n, o).Some?
    ensures SearchOffsetParent(n, o).Some?
    ensures SearchOffset(n, o).value in SearchOffsetParent(n, o).value.children
    ensures Reaches(n, SearchOffsetParent(n, o).value)
    decreases n
  {
    ParentInHoldsLeaf(n, n.children, o);
  }

  lemma {:induction false} ParentInHoldsLeaf(p: Node, ns: seq<Node>, o: int)
    requires p.ControlNode? && SearchOffsetIn(ns, o).Some?
    requires ns <= p.children || (forall c | c in ns :: c in p.children)
    ensures ParentIn(p, ns, o).Some?
    ensures SearchOffsetIn(ns, o).value in ParentIn(p, ns, o).value.children
    ensures Reaches(p, ParentIn(p, ns, o).value)
    decreases ns
  {
    assert ns != [];
    assert ns[0] in p.children;
    if SearchOffset(ns[0], o).Some? {
      if !ns[0].TextNode? {
        ParentHoldsLeaf(ns[0], o);
      }
    } else {
      ParentInHoldsLeaf(p, ns[1..], o);
    }
  }

  // ---------------------------------------------------------------------
  // searchString
  // ---------------------------------------------------------------------

  /** Some pattern of the list occurs in `text`. */
  predicate ContainsAny(text: string, needles: seq<string>) {
    exists t | t in needles :: IsSubstring(t, text)
  }

  /** NodeField.searchString: the text leaves that contain one of the patterns, in document order. */
  function SearchString(n: Node, needles: seq<string>): (r: seq<Node>)
    ensures forall m | m in r :: m.TextNode? && ContainsAny(m.text, needles)
    decreases n
  {
    match n
    case TextNode(_, _, text, _, _) => if ContainsAny(text, needles) then [n] else []
    case FormatNode(_, _, _) => []
    case ControlNode(_, _, _, _, _, _, _, _, _, _, _, children) => SearchStringIn(children, needles)
  }

  function SearchStringIn(ns: seq<Node>, needles: seq<string>): (r: seq<Node>)
    ensures forall m | m in r :: m.TextNode? && ContainsAny(m.text, needles)
    decreases ns
  {
    if ns == [] then [] else SearchString(ns[0], needles) + SearchStringIn(ns[1..], needles)
  }

  /** The leaves of a list whose text contains one of the patterns, order kept. */
  function Matching(leaves: seq<Node>, needles: seq<string>): seq<Node> {
    if leaves == [] then []
    else if leaves[0].TextNode? && ContainsAny(leaves[0].text, needles) then [leaves[0]] + Matching(leaves[1..], needles)
    else Matching(leaves[1..], needles)
  }

  lemma {:induction false} MatchingAppend(a: seq<Node>, b: seq<Node>, needles: seq<string>)
    ensures Matching(a + b, needles) == Matching(a, needles) + Matching(b, needles)
  {
    if a == [] {
      assert a + b == b;
    } else {
      assert (a + b)[1..] == a[1..] + b;
      MatchingAppend(a[1..], b, needles);
    }
  }

  /** searchString returns exactly the matching text leaves of the subtree, in document order: none is missed. */
  lemma {:induction false} SearchStringIsMatching(n: Node, needles: seq<string>)
    ensures SearchString(n, needles) == Matching(TextLeaves(n), needles)
    decreases n
  {
    if n.ControlNode? {
      SearchStringInIsMatching(n.children, needles);
    } else if n.TextNode? {
      assert TextLeaves(n)[1..] == [];
    }
  }

  lemma {:induction false} SearchStringInIsMatching(ns: seq<Node>, needles: seq<string>)
    ensures SearchStringIn(ns, needles) == Matching(LeavesOf(ns), needles)
    decreases ns
  {
    if ns != [] {
      SearchStringIsMatching(ns[0], needles);
      SearchStringInIsMatching(ns[1..], needles);
      MatchingAppend(TextLeaves(ns[0]), LeavesOf(ns[1..]), needles);
    }
  }

  /** Filtering keeps only elements of the list and keeps their order. */
  lemma {:induction false} MatchingOrdered(ls: seq<Node>, needles: seq<string>, lo: int, hi: int)
    requires Ordered(ls) && InSpan(ls, lo, hi)
    ensures forall m | m in Matching(ls, needles) :: m in ls
    ensures Ordered(Matching(ls, needles)) && InSpan(Matching(ls, needles), lo, hi)
  {
    if ls != [] {
      var rest := ls[1..];
      assert Ordered(rest);
      MatchingOrdered(rest, needles, lo, hi);
      var mr := Matching(rest, needles);
      assert forall m | m in rest :: m in ls;
      if ls[0].TextNode? && ContainsAny(ls[0].text, needles) {
        assert Matching(ls, needles) == [ls[0]] + mr;
        forall m | m in mr ensures ls[0].offset + ls[0].size <= m.offset {
          var k :| 0 <= k < |rest| && rest[k] == m;
          assert ls[k + 1] == m;
        }
        OrderedCons(ls[0], mr);
      } else {
        assert Matching(ls, needles) == mr;
      }
    }
  }

  /** A node that ends before every node of an ordered list can lead it. */
  lemma OrderedCons(x: Node, ns: seq<Node>)
    requires Ordered(ns) && forall m | m in ns :: x.offset + x.size <= m.offset
    ensures Ordered([x] + ns)
  {
    var r := [x] + ns;
    forall i, j | 0 <= i < j < |r| ensures r[i].offset + r[i].size <= r[j].offset {
      assert r[j] == ns[j - 1];
      if i > 0 {
        assert r[i] == ns[i - 1];
      }
    }
  }

  /**
   * On a well-formed tree the leaves searchString returns come in
   * document order, do not overlap and lie inside the node's interval.
   */
  lemma SearchStringOrdered(n: Node, needles: seq<string>)
    requires WellFormed(n)
    ensures Ordered(SearchString(n, needles)) && InSpan(SearchString(n, needles), n.offset, n.offset + n.size)
    ensures forall m | m in SearchString(n, needles) :: m in TextLeaves(n) && Reaches(n, m)
  {
    LeavesOrdered(n);
    LeavesReachable(n);
    SearchStringIsMatching(n, needles);
    MatchingOrdered(TextLeaves(n), needles, n.offset, n.offset + n.size);
  }

  // ---------------------------------------------------------------------
  // search_eq / search_in
  // ---------------------------------------------------------------------

  /** NodeField.search_eq: the value equals one of the items (an absent attribute equals none). */
  predicate SearchEq(items: seq<string>, value: Option<string>) {
    value.Some? && exists item | item in items :: item == value.value
  }

  /**
   * NodeField.search_in: an absent or empty value matches nothing;
   * otherwise some item, with its `*` wildcards deleted, occurs in it.
   */
  predicate SearchIn(items: seq<string>, value: Option<string>) {
    value.Some? && value.value != "" &&
    exists item | item in items :: IsSubstring(RemoveChar(item, '*'), value.value)
  }

  /**
   * search_eq is membership of the value in the list; an absent value
   * matches nothing under either test, and an empty one nothing under
   * search_in.
   */
  lemma SearchTestsOnAbsent(items: seq<string>, v: string)
    ensures SearchEq(items, Some(v)) <==> v in items
    ensures !SearchEq(items, None) && !SearchIn(items, None) && !SearchIn(items, Some(""))
  {
  }

  /** `*` marks are ignored: `*p*` and `p` match the same values when `p` has no `*`. */
  lemma SearchInWildcards(p: string, value: Option<string>)
    requires '*' !in p
    ensures SearchIn(["*" + p + "*"], value) <==> SearchIn([p], value)
  {
    RemoveCharAppend("*" + p, "*", '*');
    RemoveCharAppend("*", p, '*');
    RemoveCharAbsent(p, '*');
    assert RemoveChar("*" + p + "*", '*') == p;
  }

  /** Without wildcards, an exact match is also a containment match (for a non-empty value). */
  lemma SearchEqImpliesIn(items: seq<string>, value: Option<string>)
    requires forall item | item in items :: '*' !in item
    requires value != Some("")
    ensures SearchEq(items, value) ==> SearchIn(items, value)
  {
    if SearchEq(items, value) {
      var item :| item in items && item == value.value;
      RemoveCharAbsent(item, '*');
      assert IsPrefix(item, value.value);
    }
  }

  /** An item made only of `*` matches every non-empty value, and nothing matches an empty one. */
  lemma SearchInWildcardOnly(value: string)
    ensures SearchIn(["*"], Some(value)) <==> value != ""
  {
    assert RemoveChar("*", '*') == "";
    EmptyIsSubstring(value);
  }

  // ---------------------------------------------------------------------
  // searchNode
  // ---------------------------------------------------------------------

  /** The four prefixes of a searchNode keyword: `eq_`, `in_`, `notEq_`, `notIn_`. */
  datatype Op = Eq | In | NotEq | NotIn

  /** A keyword such as `eq_role`: an operator and the attribute it reads. */
  datatype Key = Key(op: Op, attr: string)

  /** The keyword arguments of searchNode: the value lists by keyword, and `prev_text` ("" when absent). */
  datatype Query = Query(preds: map<Key, seq<string>>, prevText: string)

  const EqText := Key(Eq, "text")
  const InText := Key(In, "text")

  /** The string-valued attributes a control answers `getattr` for. */
  const ControlAttrs: set<string> :=
    {"name", "role", "tag", "id", "className", "src", "controlIdentifier", "innerText", "customText"}

  /**
   * `getattr(node, name, None)` for the string-valued attributes a
   * control has: its own fields, the innerText auto-property, and the
   * class-level customText, which is empty on a control. Any other name
   * gives None.
   */
  function Attr(n: Node, name: string): (r: Option<string>)
    requires n.ControlNode?
    ensures r.Some? <==> name in ControlAttrs
    ensures name == "customText" ==> r == Some("")
    ensures name == "innerText" ==> r == Some(InnerText(n))
  {
    if name == "innerText" then Some(InnerText(n))
    else if name == "customText" then Some("")
    else if name == "name" then Some(n.name)
    else if name == "role" then Some(n.role)
    else if name == "tag" then Some(n.tag)
    else if name == "id" then Some(n.id)
    else if name == "className" then Some(n.className)
    else if name == "src" then Some(n.src)
    else if name == "controlIdentifier" then Some(n.controlIdentifier)
    else None
  }

  /** The keyword's test on a control: search_eq for the `eq`-kinds, search_in for the `in`-kinds. */
  predicate Satisfies(n: Node, k: Key, items: seq<string>)
    requires n.ControlNode?
  {
    match k.op
    case Eq => SearchEq(items, Attr(n, k.attr))
    case NotEq => SearchEq(items, Attr(n, k.attr))
    case In => SearchIn(items, Attr(n, k.attr))
    case NotIn => SearchIn(items, Attr(n, k.attr))
  }

  predicate IsPositive(k: Key) { k.op == Eq || k.op == In }

  predicate IsVeto(k: Key) { k.op == NotEq || k.op == NotIn }

  /** `eq_text` and `in_text` never make a control fail to match. */
  predicate Exempt(k: Key) { k == EqText || k == InText }

  /** A `notEq_`/`notIn_` keyword matches the control: the whole subtree is pruned. */
  predicate Vetoed(n: Node, q: Query)
    requires n.ControlNode?
  {
    exists k | k in q.preds && IsVeto(k) :: Satisfies(n, k, q.preds[k])
  }

  /** Every `eq_`/`in_` keyword other than `eq_text`/`in_text` is satisfied by the control. */
  predicate Found(n: Node, q: Query)
    requires n.ControlNode?
  {
    forall k | k in q.preds && IsPositive(k) && !Exempt(k) :: Satisfies(n, k, q.preds[k])
  }

  /** The keywords still pending below a control: those `eq_`/`in_` keywords it satisfies are dropped. */
  function Pending(n: Node, q: Query): Query
    requires n.ControlNode?
  {
    q.(preds := map k | k in q.preds && !(IsPositive(k) && Satisfies(n, k, q.preds[k])) :: q.preds[k])
  }

  /**
   * NodeField.searchNode: a vetoed control yields nothing; a control that
   * satisfies every keyword yields itself (or, with `eq_text`, the leaves
   * of its subtree containing the text; with `prev_text`, itself only when
   * the text before it contains that text); any other control passes the
   * keywords it did not satisfy on to its children.
   */
  function SearchNode(n: Node, q: Query): seq<Node>
    decreases n
  {
    if !n.ControlNode? || Vetoed(n, q) then []
    else
      var kwargs := Pending(n, q);
      if Found(n, q) then
        var text := if EqText in kwargs.preds then kwargs.preds[EqText] else [];
        if text != [] then SearchString(n, text)
        else if kwargs.prevText != "" then
          (if n.previousTextNode.Some? && IsSubstring(kwargs.prevText, n.previousTextNode.value.text) then [n] else [])
        else [n]
      else SearchNodeIn(n.children, kwargs)
  }

  function SearchNodeIn(ns: seq<Node>, q: Query): seq<Node>
    decreases ns
  {
    if ns == [] then [] else SearchNode(ns[0], q) + SearchNodeIn(ns[1..], q)
  }

  lemma {:induction false} SearchNodeInSnoc(ns: seq<Node>, n: Node, q: Query)
    ensures SearchNodeIn(ns + [n], q) == SearchNodeIn(ns, q) + SearchNode(n, q)
  {
    if ns == [] {
      assert ns + [n] == [n];
    } else {
      assert (ns + [n])[1..] == ns[1..] + [n];
      SearchNodeInSnoc(ns[1..], n, q);
    }
  }

  /**
   * The key loop of searchNode at a control: drops the `eq_`/`in_`
   * keywords the control satisfies, clears `found` at one it fails
   * (other than `eq_text`/`in_text`), and stops at the first
   * `notEq_`/`notIn_` keyword it satisfies.
   */
  method ScanKeys(n: Node, q: Query) returns (kwargs: map<Key, seq<string>>, found: bool, vetoed: bool)
    requires n.ControlNode?
    ensures vetoed <==> Vetoed(n, q)
    ensures !vetoed ==> kwargs == Pending(n, q).preds && found == Found(n, q)
  {
    kwargs := q.preds;
    found := true;
    vetoed := false;
    var keys := q.preds.Keys;
    while keys != {}
      invariant keys <= q.preds.Keys
      invariant kwargs == map k | k in q.preds && (k in keys || !(IsPositive(k) && Satisfies(n, k, q.preds[k]))) :: q.preds[k]
      invariant found == forall k | k in q.preds && k !in keys && IsPositive(k) && !Exempt(k) :: Satisfies(n, k, q.preds[k])
      invariant forall k | k in q.preds && k !in keys && IsVeto(k) :: !Satisfies(n, k, q.preds[k])
      decreases keys
    {
      var key :| key in keys;
      var items := kwargs[key];
      match key.op {
        case Eq =>
          if SearchEq(items, Attr(n, key.attr)) {
            kwargs := kwargs - {key};
          } else if key != EqText {
            found := false;
          }
        case In =>
          if SearchIn(items, Attr(n, key.attr)) {
            kwargs := kwargs - {key};
          } else if key != InText {
            found := false;
          }
        case NotEq =>
          if SearchEq(items, Attr(n, key.attr)) {
            vetoed := true;
            return;
          }
        case NotIn =>
          if SearchIn(items, Attr(n, key.attr)) {
            vetoed := true;
            return;
          }
      }
      keys := keys - {key};
    }
  }

  /** NodeField.searchNode, as written: the key loop, then the text filters or the loop over the children. */
  method SearchNodeAt(n: Node, q: Query) returns (nodeList: seq<Node>)
    ensures nodeList == SearchNode(n, q)
    decreases n
  {
    nodeList := [];
    if !n.ControlNode? {
      return;
    }
    var kwargs, found, vetoed := ScanKeys(n, q);
    if vetoed {
      return;
    }
    var pending := Query(kwargs, q.prevText);
    if found {
      var text := if EqText in kwargs then kwargs[EqText] else [];
      if text != [] {
        nodeList := SearchString(n, text);
      } else if q.prevText != "" {
        if n.previousTextNode.Some? && IsSubstring(q.prevText, n.previousTextNode.value.text) {
          nodeList := [n];
        } else {
          nodeList := [];
        }
      } else {
        nodeList := [n];
      }
      return;
    }
    var i := 0;
    while i < |n.children|
      invariant 0 <= i <= |n.children|
      invariant nodeList == SearchNodeIn(n.children[..i], pending)
    {
      var sub := SearchNodeAt(n.children[i], pending);
      SearchNodeInSnoc(n.children[..i], n.children[i], pending);
      assert n.children[..i + 1] == n.children[..i] + [n.children[i]];
      nodeList := nodeList + sub;
      i := i + 1;
    }
    assert n.children[..|n.children|] == n.children;
  }

  /** The branches of searchNode at one control: a veto prunes, a full match without text filters stops the descent. */
  lemma SearchNodeAtControl(n: Node, q: Query)
    requires n.ControlNode?
    ensures Vetoed(n, q) ==> SearchNode(n, q) == []
    ensures !Vetoed(n, q) && Found(n, q) && EqText !in q.preds && q.prevText == "" ==> SearchNode(n, q) == [n]
    ensures !Vetoed(n, q) && !Found(n, q) ==> SearchNode(n, q) == SearchNodeIn(n.children, Pending(n, q))
  {
  }

  /** Dropping satisfied keywords leaves the vetoes, `eq_text` and `prev_text` as they were. */
  lemma PendingKeeps(n: Node, q: Query, m: Node)
    requires n.ControlNode? && m.ControlNode?
    ensures Vetoed(m, Pending(n, q)) <==> Vetoed(m, q)
    ensures EqText in Pending(n, q).preds <==> EqText in q.preds
    ensures EqText in q.preds ==> Pending(n, q).preds[EqText] == q.preds[EqText]
    ensures Pending(n, q).prevText == q.prevText
    ensures Pending(n, q).preds.Keys <= q.preds.Keys
  {
    var p := Pending(n, q);
    if Vetoed(m, q) {
      var k :| k in q.preds && IsVeto(k) && Satisfies(m, k, q.preds[k]);
      assert k in p.preds;
    }
    assert Attr(n, "text") == None;
  }

  /** What searchNode returns: controls of the subtree or, under `eq_text`, text leaves containing it. */
  predicate Answer(n: Node, m: Node, q: Query) {
    Reaches(n, m) &&
    ((m.ControlNode? && !Vetoed(m, q)) ||
     (m.TextNode? && EqText in q.preds && ContainsAny(m.text, q.preds[EqText])))
  }

  /**
   * Every node searchNode returns lies in the subtree; a control it
   * returns is never vetoed by a `notEq_`/`notIn_` keyword (the pruning
   * is sound), and a text leaf it returns contains an `eq_text` value.
   */
  lemma {:induction false} SearchNodeAnswers(n: Node, q: Query)
    ensures forall m | m in SearchNode(n, q) :: Answer(n, m, q)
    decreases n
  {
    if n.ControlNode? && !Vetoed(n, q) {
      var kwargs := Pending(n, q);
      if Found(n, q) {
        var text := if EqText in kwargs.preds then kwargs.preds[EqText] else [];
        PendingKeeps(n, q, n);
        if text != [] {
          SearchStringOrderedReach(n, text);
        }
      } else {
        SearchNodeInAnswers(n.children, kwargs);
        forall m | m in SearchNode(n, q) ensures Answer(n, m, q) {
          var c :| c in n.children && Answer(c, m, kwargs);
          if m.ControlNode? {
            PendingKeeps(n, q, m);
          } else {
            PendingKeeps(n, q, n);
          }
        }
      }
    }
  }

  lemma {:induction false} SearchNodeInAnswers(ns: seq<Node>, q: Query)
    ensures forall m | m in SearchNodeIn(ns, q) :: exists c | c in ns :: Answer(c, m, q)
    decreases ns
  {
    if ns != [] {
      SearchNodeAnswers(ns[0], q);
      SearchNodeInAnswers(ns[1..], q);
      forall m | m in SearchNodeIn(ns, q) ensures exists c | c in ns :: Answer(c, m, q) {
        if m in SearchNode(ns[0], q) {
          assert Answer(ns[0], m, q);
        } else {
          assert m in SearchNodeIn(ns[1..], q);
          var c :| c in ns[1..] && Answer(c, m, q);
          assert c in ns;
        }
      }
    }
  }

  /** Every leaf searchString returns is in the subtree. */
  lemma SearchStringOrderedReach(n: Node, needles: seq<string>)
    ensures forall m | m in SearchString(n, needles) :: Reaches(n, m)
  {
    SearchStringIsMatching(n, needles);
    LeavesReachable(n);
    MatchingSubset(TextLeaves(n), needles);
  }

  lemma {:induction false} MatchingSubset(ls: seq<Node>, needles: seq<string>)
    ensures forall m | m in Matching(ls, needles) :: m in ls
  {
    if ls != [] {
      MatchingSubset(ls[1..], needles);
    }
  }

  /**
   * A keyword is met on the way down: some control on the path from `n`
   * to `m` (both included) satisfies it.
   */
  predicate MetOnPath(n: Node, m: Node, k: Key, items: seq<string>)
    decreases n
  {
    n.ControlNode? &&
    ((Satisfies(n, k, items) && Reaches(n, m)) || exists c | c in n.children :: MetOnPath(c, m, k, items))
  }

  /**
   * The meaning of a match: every `eq_`/`in_` keyword (other than
   * `eq_text`/`in_text`) is satisfied by a returned control or by one of
   * its ancestors within the searched subtree, since a keyword an
   * ancestor satisfied is dropped before its children are searched.
   */
  lemma {:induction false} SearchNodeKeywordsMet(n: Node, q: Query, m: Node, k: Key)
    requires m in SearchNode(n, q) && m.ControlNode?
    requires k in q.preds && IsPositive(k) && !Exempt(k)
    ensures MetOnPath(n, m, k, q.preds[k])
    decreases n
  {
    var kwargs := Pending(n, q);
    if Satisfies(n, k, q.preds[k]) {
      SearchNodeAnswers(n, q);
    } else {
      assert !Found(n, q);
      assert k in kwargs.preds && kwargs.preds[k] == q.preds[k];
      var c := SearchNodeInWitness(n.children, kwargs, m);
      SearchNodeKeywordsMet(c, kwargs, m, k);
    }
  }

  /** The child whose search produced a given result. */
  lemma {:induction false} SearchNodeInWitness(ns: seq<Node>, q: Query, m: Node) returns (c: Node)
    requires m in SearchNodeIn(ns, q)
    ensures c in ns && m in SearchNode(c, q)
    decreases ns
  {
    if m in SearchNode(ns[0], q) {
      c := ns[0];
    } else {
      c := SearchNodeInWitness(ns[1..], q, m);
    }
  }

  /**
   * On a well-formed tree searchNode returns its nodes in document order,
   * without overlap and inside the searched node's interval.
   */
  lemma {:induction false} SearchNodeOrdered(n: Node, q: Query)
    requires WellFormed(n)
    ensures Ordered(SearchNode(n, q)) && InSpan(SearchNode(n, q), n.offset, n.offset + n.size)
    decreases n
  {
    SizeNonNegative(n);
    if n.ControlNode? && !Vetoed(n, q) {
      var kwargs := Pending(n, q);
      if Found(n, q) {
        var text := if EqText in kwargs.preds then kwargs.preds[EqText] else [];
        if text != [] {
          SearchStringOrdered(n, text);
        }
      } else {
        SearchNodeInOrdered(n.children, kwargs, n.offset);
      }
    }
  }

  lemma {:induction false} SearchNodeInOrdered(ns: seq<Node>, q: Query, start: int)
    requires Contiguous(ns, start)
    requires forall c | c in ns :: WellFormed(c)
    ensures Ordered(SearchNodeIn(ns, q)) && InSpan(SearchNodeIn(ns, q), start, start + SumSizes(ns))
    decreases ns
  {
    if ns != [] {
      var mid := start + ns[0].size;
      SearchNodeOrdered(ns[0], q);
      SearchNodeInOrdered(ns[1..], q, mid);
      SizeNonNegative(ns[0]);
      SumSizesNonNegative(ns[1..]);
      OrderedConcat(SearchNode(ns[0], q), SearchNodeIn(ns[1..], q), start, mid, start + SumSizes(ns));
    }
  }

  /**
   * A keyword an ancestor satisfied is inherited: searching a menu by
   * class and a link by role finds the link inside the menu even though
   * the link itself has another class.
   */
  lemma InheritedKeywordExample()
    ensures
      var link := ControlNode(0, 0, map[], "Home", "link", "a", "", "item", "", "0", None, []);
      var menu := ControlNode(0, 0, map[], "", "list", "ul", "", "menu", "", "0", None, [link]);
      var q := Query(map[Key(Eq, "className") := ["menu"], Key(Eq, "role") := ["link"]], "");
      SearchNode(menu, q) == [link] && !Satisfies(link, Key(Eq, "className"), ["menu"])
  {
    var link := ControlNode(0, 0, map[], "Home", "link", "a", "", "item", "", "0", None, []);
    var menu := ControlNode(0, 0, map[], "", "list", "ul", "", "menu", "", "0", None, [link]);
    var q := Query(map[Key(Eq, "className") := ["menu"], Key(Eq, "role") := ["link"]], "");
    assert Attr(menu, "className") == Some("menu") && "menu" in ["menu"];
    assert Satisfies(menu, Key(Eq, "className"), ["menu"]);
    assert !Satisfies(menu, Key(Eq, "role"), ["link"]);
    var p := Pending(menu, q);
    assert p.preds == map[Key(Eq, "role") := ["link"]];
    assert Attr(link, "role") == Some("link") && "link" in ["link"];
    assert Satisfies(link, Key(Eq, "role"), ["link"]);
    assert !Vetoed(menu, q);
    assert Key(Eq, "role") in q.preds && IsPositive(Key(Eq, "role")) && !Exempt(Key(Eq, "role"));
    assert !Found(menu, q);
    assert !Vetoed(link, p);
    assert Found(link, p);
    assert SearchNode(link, p) == [link];
    assert SearchNodeIn([link], p) == [link];
    assert SearchNode(menu, q) == SearchNodeIn([link], p);
  }
}
