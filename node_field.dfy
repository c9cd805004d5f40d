/**
 * The nodes of the tree built from a page's flattened text-with-fields
 * stream (class NodeField of nodeHandler.py): the stream's atoms, the
 * three kinds of node, how a node is made from an atom, the structural
 * invariant a built tree keeps, and the queries a node answers about
 * itself (equality and order by offset, membership, inner text).
 *
 * Roles and control identifiers are integers in the screen reader; here
 * they are carried as strings, which keeps every comparison the code
 * makes (equality only) unchanged.
 */
module NodeField {
  import opened Common

  type Attributes = map<string, string>

  /** One item of the flattened stream: a run of text or a field command. */
  datatype Atom =
    | Text(content: string)
    | ControlStart(field: Attributes)
    | ControlEnd
    | FormatChange(field: Attributes)

  /** The last text leaf seen before a control opened: where it starts and what it says. */
  datatype TextRef = TextRef(offset: int, text: string)

  /**
   * A node covers the half-open interval [offset, offset + size) of the
   * flattened text. Text leaves take role and control identifier from
   * their parent; format markers have no extent; controls own children.
   */
  datatype Node =
    | TextNode(offset: int, size: int, text: string, role: string, controlIdentifier: string)
    | FormatNode(offset: int, size: int, format: Attributes)
    | ControlNode(offset: int, size: int, control: Attributes,
                  name: string, role: string, tag: string, id: string,
                  className: string, src: string, controlIdentifier: string,
                  previousTextNode: Option<TextRef>, children: seq<Node>)

  /** What a text leaf inherits from the control that encloses it. */
  datatype Owner = Owner(role: string, controlIdentifier: string)

  /** The exceptions node construction raises: a text run with no parent control, a control field without a role. */
  datatype BuildError = TextWithoutParent | MissingRole

  function OwnerOf(n: Node): Owner
    requires n.ControlNode?
  {
    Owner(n.role, n.controlIdentifier)
  }

  // Attribute keys consulted, in order, for the resolved control attributes.
  const TagKeys: seq<string> := ["IAccessible2::attribute_tag", "IHTMLDOMNode::nodeName"]
  const IdKeys: seq<string> := ["IAccessible2::attribute_id", "HTMLAttrib::id"]
  const ClassKeys: seq<string> := ["IAccessible2::attribute_class", "HTMLAttrib::class", "HTMLAttrib::className"]
  const SrcKeys: seq<string> := ["IAccessible2::attribute_src", "HTMLAttrib::src"]

  /** A key counts as unset when it is missing or maps to the empty string (a falsy value). */
  predicate Unset(field: Attributes, key: string) {
    key !in field || field[key] == ""
  }

  /**
   * A fallback chain of attribute keys: the value of the first key that
   * is set, or the empty string when none is.
   */
  function Resolve(field: Attributes, keys: seq<string>): (r: string)
    ensures (forall i | 0 <= i < |keys| :: Unset(field, keys[i])) ==> r == ""
    ensures forall i | 0 <= i < |keys| && !Unset(field, keys[i]) ::
              (forall j | 0 <= j < i :: Unset(field, keys[j])) ==> r == field[keys[i]]
  {
    if keys == [] then ""
    else if !Unset(field, keys[0]) then field[keys[0]]
    else
      var r := Resolve(field, keys[1..]);
      assert forall i | 1 <= i < |keys| :: keys[i] == keys[1..][i - 1];
      r
  }

  /**
   * One step of a fallback chain: the key's value when the key is set,
   * `otherwise` when it is missing or maps to the empty string.
   */
  function OrElse(field: Attributes, key: string, otherwise: string): string {
    if !Unset(field, key) then field[key] else otherwise
  }

  // The four chains NodeField.__init__ resolves, key by key.
  function TagOf(field: Attributes): string {
    OrElse(field, "IAccessible2::attribute_tag", OrElse(field, "IHTMLDOMNode::nodeName", ""))
  }

  function IdOf(field: Attributes): string {
    OrElse(field, "IAccessible2::attribute_id", OrElse(field, "HTMLAttrib::id", ""))
  }

  function ClassNameOf(field: Attributes): string {
    OrElse(field, "IAccessible2::attribute_class", OrElse(field, "HTMLAttrib::class", OrElse(field, "HTMLAttrib::className", "")))
  }

  function SrcOf(field: Attributes): string {
    OrElse(field, "IAccessible2::attribute_src", OrElse(field, "HTMLAttrib::src", ""))
  }

  /** Each chain yields the value of its first key that is set, or "" when none is. */
  lemma ChainsResolve(field: Attributes)
    ensures TagOf(field) == Resolve(field, TagKeys)
    ensures IdOf(field) == Resolve(field, IdKeys)
    ensures ClassNameOf(field) == Resolve(field, ClassKeys)
    ensures SrcOf(field) == Resolve(field, SrcKeys)
  {
    var k := ClassKeys;
    ResolveStep(field, k);
    ResolveStep(field, k[1..]);
    ResolveStep(field, k[2..]);
    assert k[1..][0] == k[1] && k[2..][0] == k[2] && k[1..][1..] == k[2..] && k[2..][1..] == [];
  }

  lemma ResolveStep(field: Attributes, keys: seq<string>)
    requires keys != []
    ensures Resolve(field, keys) == OrElse(field, keys[0], Resolve(field, keys[1..]))
  {
  }

  /** NodeField.__init__ for a text run: a leaf as long as the text, at the cursor. */
  function NewTextNode(s: string, parent: Option<Owner>, offset: int): (r: Result<Node, BuildError>)
    ensures r.Success? <==> parent.Some?
    ensures r.Success? ==> r.value.TextNode? && r.value.offset == offset && r.value.size == Utf16Len(s) && r.value.text == s
                           && Owner(r.value.role, r.value.controlIdentifier) == parent.value
  {
    match parent
    case None => Failure(TextWithoutParent)
    case Some(p) => Success(TextNode(offset, Utf16Len(s), s, p.role, p.controlIdentifier))
  }

  /** NodeField.__init__ for a formatChange: a marker of size zero at the cursor. */
  function NewFormatNode(field: Attributes, offset: int): (r: Node)
    ensures r.FormatNode? && r.offset == offset && r.size == 0
  {
    FormatNode(offset, 0, field)
  }

  /** NodeField.__init__ for a controlStart: attributes resolved, no children yet, size zero. */
  function NewControlNode(field: Attributes, offset: int, previous: Option<TextRef>): (r: Result<Node, BuildError>)
    ensures r.Failure? <==> "role" !in field
    ensures r.Failure? ==> r.error == MissingRole
    ensures r.Success? ==>
              var n := r.value;
              && n.ControlNode? && n.offset == offset && n.size == 0 && n.children == []
              && n.control == field && n.role == field["role"] && n.previousTextNode == previous
              && n.name == (if "name" in field then field["name"] else "")
              && n.controlIdentifier == (if "controlIdentifier_ID" in field then field["controlIdentifier_ID"] else "0")
              && n.tag == TagOf(field) && n.id == IdOf(field) && n.className == ClassNameOf(field) && n.src == SrcOf(field)
  {
    if "role" !in field then Failure(MissingRole)
    else Success(ControlNode(offset, 0, field,
      if "name" in field then field["name"] else "",
      field["role"],
      TagOf(field), IdOf(field), ClassNameOf(field), SrcOf(field),
      if "controlIdentifier_ID" in field then field["controlIdentifier_ID"] else "0",
      previous, []))
  }

  /** Total size of a list of nodes. */
  function SumSizes(ns: seq<Node>): int {
    if ns == [] then 0 else ns[0].size + SumSizes(ns[1..])
  }

  lemma {:induction false} SumSizesSnoc(ns: seq<Node>, n: Node)
    ensures SumSizes(ns + [n]) == SumSizes(ns) + n.size
  {
    if ns == [] {
      assert ns + [n] == [n];
    } else {
      assert (ns + [n])[1..] == ns[1..] + [n];
      SumSizesSnoc(ns[1..], n);
    }
  }

  /** Nodes laid end to end from `start`: each begins where the one before it ended. */
  predicate Contiguous(ns: seq<Node>, start: int) {
    ns == [] || (ns[0].offset == start && Contiguous(ns[1..], start + ns[0].size))
  }

  /**
   * The invariant of a built tree: a leaf is as long as its text, a
   * format marker has no extent, and a control is exactly as long as its
   * children, which tile its interval in order and whose text leaves
   * carry its role and control identifier.
   */
  predicate WellFormed(n: Node)
    decreases n
  {
    match n
    case TextNode(_, size, text, _, _) => size == Utf16Len(text)
    case FormatNode(_, size, _) => size == 0
    case ControlNode(offset, size, _, _, role, _, _, _, _, cid, _, children) =>
      && size == SumSizes(children)
      && Contiguous(children, offset)
      && (forall c | c in children ::
            WellFormed(c) && (c.TextNode? ==> c.role == role && c.controlIdentifier == cid))
  }

  /** A well-formed node never has a negative size. */
  lemma {:induction false} SizeNonNegative(n: Node)
    requires WellFormed(n)
    ensures n.size >= 0
    decreases n
  {
    if n.ControlNode? {
      SumSizesNonNegative(n.children);
    }
  }

  lemma {:induction false} SumSizesNonNegative(ns: seq<Node>)
    requires forall c | c in ns :: WellFormed(c)
    ensures SumSizes(ns) >= 0
    decreases ns
  {
    if ns != [] {
      SizeNonNegative(ns[0]);
      SumSizesNonNegative(ns[1..]);
    }
  }

  /** Every child of a contiguous run of well-formed nodes lies inside the run's interval. */
  lemma {:induction false} ChildrenInSpan(ns: seq<Node>, start: int)
    requires Contiguous(ns, start)
    requires forall c | c in ns :: WellFormed(c)
    ensures forall c | c in ns :: start <= c.offset && c.offset + c.size <= start + SumSizes(ns)
    decreases ns
  {
    if ns != [] {
      SizeNonNegative(ns[0]);
      SumSizesNonNegative(ns[1..]);
      ChildrenInSpan(ns[1..], start + ns[0].size);
    }
  }

  /** `m` occurs in the subtree rooted at `n` (`n` itself included). */
  predicate Reaches(n: Node, m: Node)
    decreases n
  {
    n == m || (n.ControlNode? && exists c | c in n.children :: Reaches(c, m))
  }

  /** Every node of a well-formed subtree is well formed. */
  lemma {:induction false} WellFormedReach(n: Node, m: Node)
    requires WellFormed(n) && Reaches(n, m)
    ensures WellFormed(m)
    decreases n
  {
    if n != m {
      var c :| c in n.children && Reaches(c, m);
      WellFormedReach(c, m);
    }
  }

  /** The text leaves of a subtree in document (pre-order, left to right) order. */
  function TextLeaves(n: Node): seq<Node>
    decreases n
  {
    match n
    case TextNode(_, _, _, _, _) => [n]
    case FormatNode(_, _, _) => []
    case ControlNode(_, _, _, _, _, _, _, _, _, _, _, children) => LeavesOf(children)
  }

  function LeavesOf(ns: seq<Node>): seq<Node>
    decreases ns
  {
    if ns == [] then [] else TextLeaves(ns[0]) + LeavesOf(ns[1..])
  }

  /** Nodes laid out left to right: each ends no later than the next one begins. */
  predicate Ordered(ns: seq<Node>) {
    forall i, j | 0 <= i < j < |ns| :: ns[i].offset + ns[i].size <= ns[j].offset
  }

  /** Every node of `ns` lies inside [lo, hi]. */
  predicate InSpan(ns: seq<Node>, lo: int, hi: int) {
    forall m | m in ns :: lo <= m.offset && m.offset + m.size <= hi
  }

  lemma OrderedConcat(a: seq<Node>, b: seq<Node>, lo: int, mid: int, hi: int)
    requires lo <= mid <= hi
    requires Ordered(a) && InSpan(a, lo, mid)
    requires Ordered(b) && InSpan(b, mid, hi)
    ensures Ordered(a + b) && InSpan(a + b, lo, hi)
  {
    forall i, j | 0 <= i < j < |a + b|
      ensures (a + b)[i].offset + (a + b)[i].size <= (a + b)[j].offset
    {
      if j < |a| {
      } else if i < |a| {
        assert (a + b)[i] in a && (a + b)[j] in b;
      } else {
        assert (a + b)[i] == b[i - |a|] && (a + b)[j] == b[j - |a|];
      }
    }
  }

  /**
   * The text leaves of a well-formed subtree come in document order,
   * do not overlap, and lie inside the subtree's interval.
   */
  lemma {:induction false} LeavesOrdered(n: Node)
    requires WellFormed(n)
    ensures Ordered(TextLeaves(n)) && InSpan(TextLeaves(n), n.offset, n.offset + n.size)
    decreases n
  {
    if n.ControlNode? {
      LeavesOfOrdered(n.children, n.offset);
    }
  }

  lemma {:induction false} LeavesOfOrdered(ns: seq<Node>, start: int)
    requires Contiguous(ns, start)
    requires forall c | c in ns :: WellFormed(c)
    ensures Ordered(LeavesOf(ns)) && InSpan(LeavesOf(ns), start, start + SumSizes(ns))
    decreases ns
  {
    if ns != [] {
      var mid := start + ns[0].size;
      LeavesOrdered(ns[0]);
      LeavesOfOrdered(ns[1..], mid);
      SizeNonNegative(ns[0]);
      SumSizesNonNegative(ns[1..]);
      OrderedConcat(TextLeaves(ns[0]), LeavesOf(ns[1..]), start, mid, start + SumSizes(ns));
    }
  }

  /** Every text leaf of a subtree is reachable from its root. */
  lemma {:induction false} LeavesReachable(n: Node)
    ensures forall m | m in TextLeaves(n) :: Reaches(n, m) && m.TextNode?
    decreases n
  {
    if n.ControlNode? {
      LeavesOfReachable(n.children);
      forall m | m in TextLeaves(n) ensures Reaches(n, m) {
        var c :| c in n.children && Reaches(c, m);
      }
    }
  }

  lemma {:induction false} LeavesOfReachable(ns: seq<Node>)
    ensures forall m | m in LeavesOf(ns) :: m.TextNode? && exists c | c in ns :: Reaches(c, m)
    decreases ns
  {
    if ns != [] {
      LeavesReachable(ns[0]);
      LeavesOfReachable(ns[1..]);
      forall m | m in LeavesOf(ns) ensures exists c | c in ns :: Reaches(c, m) {
        if m in TextLeaves(ns[0]) {
          assert Reaches(ns[0], m);
        } else {
          var c :| c in ns[1..] && Reaches(c, m);
          assert c in ns;
        }
      }
    }
  }

  /** NodeField.__eq__: nodes are equal when they start at the same offset; no node equals None. */
  predicate SameNode(a: Node, b: Option<Node>) {
    b.Some? && a.offset == b.value.offset
  }

  /** NodeField.__lt__: a node is less than another when it starts earlier. */
  predicate Precedes(a: Node, b: Node) {
    a.offset < b.offset
  }

  /** NodeField.__contains__: `m` equals the node itself or one of its children. */
  predicate Holds(n: Node, m: Option<Node>) {
    SameNode(n, m) || (n.ControlNode? && exists c | c in n.children :: SameNode(c, m))
  }

  /**
   * On the text leaves of a well-formed tree, `__lt__` is document order
   * and `__eq__` tells non-empty leaves apart: a leaf is less than every
   * leaf after it, and two non-empty leaves compare equal only when they
   * are the same leaf.
   */
  lemma LeavesCompareInOrder(n: Node)
    requires WellFormed(n)
    ensures var ls := TextLeaves(n);
            forall i, j | 0 <= i < j < |ls| && ls[i].size > 0 :: Precedes(ls[i], ls[j]) && !SameNode(ls[j], Some(ls[i]))
    ensures var ls := TextLeaves(n);
            forall i, j | 0 <= i < |ls| && 0 <= j < |ls| && ls[i].size > 0 && ls[j].size > 0 && SameNode(ls[i], Some(ls[j])) :: i == j
  {
    LeavesOrdered(n);
  }

  /** What a well-formed node holds starts inside its interval (its end included). */
  lemma HoldsWithinSpan(n: Node, m: Node)
    requires WellFormed(n)
    requires Holds(n, Some(m))
    ensures n.offset <= m.offset <= n.offset + n.size
  {
    SizeNonNegative(n);
    if !SameNode(n, Some(m)) {
      ChildrenInSpan(n.children, n.offset);
      var c :| c in n.children && SameNode(c, Some(m));
      SizeNonNegative(c);
    }
  }

  /** The contribution of one text leaf to innerText: its text, then a blank unless it is empty or ends a line. */
  function Decorated(text: string): string {
    if |text| > 0 then (if text[|text| - 1] == '\n' then text else text + " ") else ""
  }

  /** NodeField.innerText: the text of the subtree, leaf by leaf. */
  function InnerText(n: Node): (r: string)
    ensures n.TextNode? ==> IsPrefix(n.text, r) && |r| <= |n.text| + 1
    ensures n.FormatNode? ==> r == ""
    decreases n
  {
    match n
    case TextNode(_, _, text, _, _) => Decorated(text)
    case FormatNode(_, _, _) => ""
    case ControlNode(_, _, _, _, _, _, _, _, _, _, _, children) => InnerTextOf(children)
  }

  function InnerTextOf(ns: seq<Node>): string
    decreases ns
  {
    if ns == [] then "" else InnerText(ns[0]) + InnerTextOf(ns[1..])
  }

  /** The decorated texts of a list of leaves, one after the other. */
  function ConcatDecorated(leaves: seq<Node>): string
    requires forall m | m in leaves :: m.TextNode?
  {
    if leaves == [] then "" else Decorated(leaves[0].text) + ConcatDecorated(leaves[1..])
  }

  lemma {:induction false} ConcatDecoratedAppend(a: seq<Node>, b: seq<Node>)
    requires forall m | m in a + b :: m.TextNode?
    ensures ConcatDecorated(a + b) == ConcatDecorated(a) + ConcatDecorated(b)
  {
    if a == [] {
      assert a + b == b;
    } else {
      var head, rest := Decorated(a[0].text), a[1..] + b;
      assert (a + b)[0] == a[0] && (a + b)[1..] == rest;
      assert forall m | m in rest :: m in a + b;
      calc {
        ConcatDecorated(a + b);
        head + ConcatDecorated(rest);
        { ConcatDecoratedAppend(a[1..], b); }
        head + (ConcatDecorated(a[1..]) + ConcatDecorated(b));
        (head + ConcatDecorated(a[1..])) + ConcatDecorated(b);
        ConcatDecorated(a) + ConcatDecorated(b);
      }
    }
  }

  /** innerText is the decorated text of the subtree's text leaves, in document order. */
  lemma {:induction false} InnerTextByLeaves(n: Node)
    ensures forall m | m in TextLeaves(n) :: m.TextNode?
    ensures InnerText(n) == ConcatDecorated(TextLeaves(n))
    decreases n
  {
    LeavesReachable(n);
    if n.ControlNode? {
      InnerTextOfByLeaves(n.children);
    }
  }

  lemma {:induction false} InnerTextOfByLeaves(ns: seq<Node>)
    ensures forall m | m in LeavesOf(ns) :: m.TextNode?
    ensures InnerTextOf(ns) == ConcatDecorated(LeavesOf(ns))
    decreases ns
  {
    LeavesOfReachable(ns);
    if ns != [] {
      InnerTextByLeaves(ns[0]);
      InnerTextOfByLeaves(ns[1..]);
      ConcatDecoratedAppend(TextLeaves(ns[0]), LeavesOf(ns[1..]));
    }
  }

  /** A leaf's contribution is its text plus at most one separator. */
  lemma DecoratedLength(text: string)
    ensures Utf16Len(Decorated(text)) == Utf16Len(text) + (if |text| > 0 && text[|text| - 1] != '\n' then 1 else 0)
  {
    if |text| > 0 && text[|text| - 1] != '\n' {
      Utf16LenAppend(text, " ");
    }
  }

  /**
   * innerText holds every character of the subtree's text and at most one
   * separator per character, counted as Python's `len` counts them:
   * size <= len(innerText) <= 2 * size.
   */
  lemma {:induction false} InnerTextLength(n: Node)
    requires WellFormed(n)
    ensures n.size <= Utf16Len(InnerText(n)) <= 2 * n.size
    decreases n
  {
    if n.ControlNode? {
      InnerTextOfLength(n.children);
    } else if n.TextNode? {
      DecoratedLength(n.text);
    }
  }

  lemma {:induction false} InnerTextOfLength(ns: seq<Node>)
    requires forall c | c in ns :: WellFormed(c)
    ensures SumSizes(ns) <= Utf16Len(InnerTextOf(ns)) <= 2 * SumSizes(ns)
    decreases ns
  {
    if ns != [] {
      InnerTextLength(ns[0]);
      InnerTextOfLength(ns[1..]);
      Utf16LenAppend(InnerText(ns[0]), InnerTextOf(ns[1..]));
    }
  }
}
