/**
 * How NodeManager.createNodeField turns the flattened stream into a
 * tree, as a pair of recursive functions over a cursor (position in the
 * stream, text offset reached, last text leaf made), and what the tree
 * it builds is: well formed, with every node's offset equal to the
 * length of the text that precedes its field in the stream, and every
 * control remembering the text run that came last before it.
 */
module TreeBuilder {
  import opened Common
  import opened NodeField

  /** createNodeField's state: fieldIndex, fieldOffset and lastTextNode. */
  datatype Cursor = Cursor(index: nat, offset: int, lastText: Option<TextRef>)

  /**
   * What one call of createNodeField ends with: the node it returned
   * (None for a controlEnd or the end of the stream), or the exception
   * it raised; in both cases the cursor it left behind.
   */
  datatype Parse =
    | Parsed(node: Option<Node>, cursor: Cursor)
    | Raised(error: BuildError, cursor: Cursor)

  /** A measure that falls each time the cursor moves on; zero once past the end of the stream. */
  function Remaining(atoms: seq<Atom>, i: nat): nat {
    if i <= |atoms| then |atoms| + 1 - i else 0
  }

  /**
   * createNodeField(parent): the node whose field is at the cursor. A
   * text run becomes a leaf and moves the text offset on, a format
   * change a marker, a controlStart a control whose children are read
   * from the following fields up to its controlEnd.
   */
  function ParseNode(atoms: seq<Atom>, c: Cursor, parent: Option<Owner>): (r: Parse)
    ensures r.cursor.index >= c.index
    ensures r.Parsed? && r.node.Some? ==> c.index < |atoms|
    // A text run under a control: a leaf at the cursor as long as the text, after which the offset moves on.
    ensures c.index < |atoms| && atoms[c.index].Text? && parent.Some? ==>
      var s := atoms[c.index].content;
      r == Parsed(Some(TextNode(c.offset, Utf16Len(s), s, parent.value.role, parent.value.controlIdentifier)),
                  c.(offset := c.offset + Utf16Len(s), lastText := Some(TextRef(c.offset, s))))
    decreases Remaining(atoms, c.index), 1
  {
    if c.index >= |atoms| then Parsed(None, c)
    else match atoms[c.index]
      case Text(s) =>
        (match NewTextNode(s, parent, c.offset)
         case Failure(e) => Raised(e, c)
         case Success(leaf) =>
           Parsed(Some(leaf), c.(offset := c.offset + leaf.size, lastText := Some(TextRef(c.offset, s)))))
      case ControlEnd => Parsed(None, c)
      case FormatChange(f) => Parsed(Some(NewFormatNode(f, c.offset)), c)
      case ControlStart(f) =>
        OpenAt(atoms, c, f)
  }

  /** The controlStart branch of createNodeField: make the control, then read its children from the next field on. */
  function OpenAt(atoms: seq<Atom>, c: Cursor, f: Attributes): (r: Parse)
    requires c.index < |atoms|
    ensures r.cursor.index >= c.index
    ensures r.Parsed? ==> r.node.Some?
    decreases Remaining(atoms, c.index), 0
  {
    match NewControlNode(f, c.offset, c.lastText)
    case Failure(e) => Raised(e, c)
    case Success(node) => ParseChildren(atoms, c.(index := c.index + 1), node)
  }

  /**
   * The loop of createNodeField over a control's children: read a child,
   * append it and add its size, step past its last field, and stop at
   * the first call that returns None.
   */
  function ParseChildren(atoms: seq<Atom>, c: Cursor, node: Node): (r: Parse)
    requires node.ControlNode?
    ensures r.cursor.index >= c.index
    ensures r.Parsed? ==> r.node.Some?
    decreases Remaining(atoms, c.index), 2
  {
    match ParseNode(atoms, c, Some(OwnerOf(node)))
    case Raised(e, c1) => Raised(e, c1)
    case Parsed(None, c1) => Parsed(Some(node), c1)
    case Parsed(Some(child), c1) =>
      ParseChildren(atoms, c1.(index := c1.index + 1),
        node.(children := node.children + [child], size := node.size + child.size))
  }

  /** The start of NodeManager.update's rebuild: fieldIndex 0, fieldOffset 0, no text seen, no parent. */
  function Build(atoms: seq<Atom>): Parse {
    ParseNode(atoms, Cursor(0, 0, None), None)
  }

  /** Appending a node that starts where the run ends keeps the run contiguous. */
  lemma {:induction false} ContiguousSnoc(ns: seq<Node>, start: int, n: Node)
    requires Contiguous(ns, start) && n.offset == start + SumSizes(ns)
    ensures Contiguous(ns + [n], start)
    decreases ns
  {
    if ns == [] {
      assert ns + [n] == [n];
    } else {
      assert (ns + [n])[1..] == ns[1..] + [n];
      ContiguousSnoc(ns[1..], start + ns[0].size, n);
    }
  }

  /** The invariant of a control while its children are being read. */
  predicate Growing(node: Node, c: Cursor) {
    && node.ControlNode?
    && node.size == SumSizes(node.children)
    && Contiguous(node.children, node.offset)
    && (forall ch | ch in node.children ::
          WellFormed(ch) && (ch.TextNode? ==> ch.role == node.role && ch.controlIdentifier == node.controlIdentifier))
    && c.offset == node.offset + node.size
  }

  /** `m` is `node` with more children appended and nothing else changed. */
  predicate Extends(m: Node, node: Node)
    requires node.ControlNode?
  {
    m.ControlNode? && node.children <= m.children &&
    m == node.(children := m.children, size := m.size)
  }

  /**
   * Every node createNodeField returns is well formed, starts at the
   * text offset it was called with, and moves the offset on by exactly
   * its size; a text leaf takes its parent's role and control
   * identifier; a call that returns None leaves the cursor alone.
   */
  lemma {:induction false} ParseNodeWellFormed(atoms: seq<Atom>, c: Cursor, parent: Option<Owner>)
    ensures ParseNode(atoms, c, parent).Parsed? ==>
      match ParseNode(atoms, c, parent).node
      case None => ParseNode(atoms, c, parent).cursor == c
      case Some(n) =>
        && WellFormed(n)
        && n.offset == c.offset
        && ParseNode(atoms, c, parent).cursor.offset == c.offset + n.size
        && (n.TextNode? ==> parent.Some? && n.role == parent.value.role && n.controlIdentifier == parent.value.controlIdentifier)
    decreases Remaining(atoms, c.index), 0
  {
    if c.index < |atoms| {
      match atoms[c.index]
      case Text(s) =>
        var made := NewTextNode(s, parent, c.offset);
        if made.Success? {
          assert ParseNode(atoms, c, parent) == Parsed(Some(made.value), c.(offset := c.offset + made.value.size, lastText := Some(TextRef(c.offset, s))));
        }
      case ControlEnd =>
      case FormatChange(f) =>
      case ControlStart(f) =>
        var made := NewControlNode(f, c.offset, c.lastText);
        if made.Success? {
          var node := made.value;
          assert Growing(node, c.(index := c.index + 1));
          assert ParseNode(atoms, c, parent) == ParseChildren(atoms, c.(index := c.index + 1), node);
          ParseChildrenWellFormed(atoms, c.(index := c.index + 1), node);
        }
    }
  }

  /** What reading a control's children gives back, when it does not raise: the control, well formed and grown to its full size. */
  predicate ClosedWellFormed(p: Parse, node: Node)
    requires node.ControlNode?
  {
    p.Parsed? ==>
      && p.node.Some?
      && WellFormed(p.node.value)
      && Extends(p.node.value, node)
      && p.cursor.offset == node.offset + p.node.value.size
  }

  lemma {:induction false} ParseChildrenWellFormed(atoms: seq<Atom>, c: Cursor, node: Node)
    requires Growing(node, c)
    ensures ClosedWellFormed(ParseChildren(atoms, c, node), node)
    decreases Remaining(atoms, c.index), 2
  {
    var owner := Some(OwnerOf(node));
    var step := ParseNode(atoms, c, owner);
    if step.Parsed? && step.node.Some? {
      TakeChildWellFormed(atoms, c, node);
    } else {
      ParseNodeWellFormed(atoms, c, owner);
      StopChildren(atoms, c, node);
      assert WellFormed(node);
    }
  }

  /** The step of ParseChildrenWellFormed that appends a child and reads on. */
  lemma {:induction false} TakeChildWellFormed(atoms: seq<Atom>, c: Cursor, node: Node)
    requires Growing(node, c)
    requires ParseNode(atoms, c, Some(OwnerOf(node))).Parsed? && ParseNode(atoms, c, Some(OwnerOf(node))).node.Some?
    ensures ClosedWellFormed(ParseChildren(atoms, c, node), node)
    decreases Remaining(atoms, c.index), 1
  {
    var step := ParseNode(atoms, c, Some(OwnerOf(node)));
    ParseNodeWellFormed(atoms, c, Some(OwnerOf(node)));
    var child := step.node.value;
    var next := node.(children := node.children + [child], size := node.size + child.size);
    var c1 := step.cursor.(index := step.cursor.index + 1);
    TakeChild(atoms, c, node, child, step.cursor);
    GrowingSnoc(node, c, child, step.cursor);
    ParseChildrenWellFormed(atoms, c1, next);
    var q := ParseChildren(atoms, c1, next);
    if q.Parsed? {
      ExtendsTrans(q.node.value, next, node);
    }
  }

  lemma ExtendsTrans(m: Node, mid: Node, node: Node)
    requires mid.ControlNode? && node.ControlNode? && Extends(m, mid) && Extends(mid, node)
    ensures Extends(m, node)
  {
  }

  /** Appending a well-formed child that starts where the control ends keeps the control growing. */
  lemma GrowingSnoc(node: Node, c: Cursor, child: Node, c1: Cursor)
    requires Growing(node, c) && WellFormed(child) && child.offset == c.offset
    requires c1.offset == c.offset + child.size
    requires child.TextNode? ==> child.role == node.role && child.controlIdentifier == node.controlIdentifier
    ensures Growing(node.(children := node.children + [child], size := node.size + child.size), c1.(index := c1.index + 1))
    ensures Extends(node.(children := node.children + [child], size := node.size + child.size), node)
  {
    SumSizesSnoc(node.children, child);
    ContiguousSnoc(node.children, node.offset, child);
  }

  // ---------------------------------------------------------------------
  // Where the cursor stands in the stream
  // ---------------------------------------------------------------------

  /** Total length of the text runs of a stretch of the stream. */
  function TextLen(atoms: seq<Atom>): nat {
    if atoms == [] then 0
    else TextLen(atoms[..|atoms| - 1]) + (if atoms[|atoms| - 1].Text? then Utf16Len(atoms[|atoms| - 1].content) else 0)
  }

  /** The last text run of a stretch of the stream, with the text offset at which it starts. */
  function LastText(atoms: seq<Atom>): Option<TextRef> {
    if atoms == [] then None
    else if atoms[|atoms| - 1].Text? then Some(TextRef(TextLen(atoms[..|atoms| - 1]), atoms[|atoms| - 1].content))
    else LastText(atoms[..|atoms| - 1])
  }

  /** The fields before position `i` (all of them once `i` has run past the end). */
  function Consumed(atoms: seq<Atom>, i: nat): seq<Atom> {
    if i <= |atoms| then atoms[..i] else atoms
  }

  /** The cursor's text offset and last text agree with the fields before its position. */
  predicate Tracks(atoms: seq<Atom>, c: Cursor) {
    c.offset == TextLen(Consumed(atoms, c.index)) && c.lastText == LastText(Consumed(atoms, c.index))
  }

  /** Moving past one field adds its text, if any, and makes it the last text. */
  lemma ConsumedStep(atoms: seq<Atom>, i: nat)
    ensures i < |atoms| ==> Consumed(atoms, i + 1) == Consumed(atoms, i) + [atoms[i]]
    ensures i < |atoms| && atoms[i].Text? ==>
      TextLen(Consumed(atoms, i + 1)) == TextLen(Consumed(atoms, i)) + Utf16Len(atoms[i].content) &&
      LastText(Consumed(atoms, i + 1)) == Some(TextRef(TextLen(Consumed(atoms, i)), atoms[i].content))
    ensures i < |atoms| && !atoms[i].Text? ==>
      TextLen(Consumed(atoms, i + 1)) == TextLen(Consumed(atoms, i)) &&
      LastText(Consumed(atoms, i + 1)) == LastText(Consumed(atoms, i))
    ensures i >= |atoms| ==> Consumed(atoms, i + 1) == Consumed(atoms, i)
  {
    if i < |atoms| {
      var p := atoms[..i + 1];
      assert p[..|p| - 1] == atoms[..i];
      assert p[|p| - 1] == atoms[i];
    }
  }

  /**
   * What reading the field at `c` leaves behind, when it does not raise:
   * a cursor that tracks the stream up to the field after the last one
   * read, and a node that starts at the length of the text before its
   * field, a control also recording the last text run before it.
   */
  predicate TracksAfter(atoms: seq<Atom>, c: Cursor, p: Parse) {
    && (p.Parsed? ==> Tracks(atoms, p.cursor.(index := p.cursor.index + 1)))
    && (p.Parsed? && p.node.Some? ==>
          && p.node.value.offset == TextLen(Consumed(atoms, c.index))
          && (p.node.value.ControlNode? ==> p.node.value.previousTextNode == LastText(Consumed(atoms, c.index))))
  }

  /**
   * createNodeField keeps its cursor honest: once a call returns, the
   * text offset is the length of all text before the field after the
   * one it stopped at, and lastTextNode the last text run among them.
   * A node starts at the length of the text that precedes its field, and
   * a control's previousTextNode is the last text run before its field.
   */
  lemma {:induction false} ParseNodeTracks(atoms: seq<Atom>, c: Cursor, parent: Option<Owner>)
    requires Tracks(atoms, c)
    ensures TracksAfter(atoms, c, ParseNode(atoms, c, parent))
    decreases Remaining(atoms, c.index), 1
  {
    ConsumedStep(atoms, c.index);
    if c.index >= |atoms| {
      assert ParseNode(atoms, c, parent) == Parsed(None, c);
    } else {
      match atoms[c.index]
      case Text(s) =>
        if parent.None? {
          assert ParseNode(atoms, c, parent).Raised?;
        }
      case ControlEnd =>
        assert ParseNode(atoms, c, parent) == Parsed(None, c);
      case FormatChange(f) =>
        ReadFormat(atoms, c, parent);
      case ControlStart(f) =>
        ControlTracks(atoms, c, parent);
    }
  }

  /** The controlStart case of ParseNodeTracks: the control's children keep the cursor honest. */
  lemma {:induction false} ControlTracks(atoms: seq<Atom>, c: Cursor, parent: Option<Owner>)
    requires Tracks(atoms, c) && c.index < |atoms| && atoms[c.index].ControlStart?
    ensures TracksAfter(atoms, c, ParseNode(atoms, c, parent))
    decreases Remaining(atoms, c.index), 0
  {
    var made := NewControlNode(atoms[c.index].field, c.offset, c.lastText);
    if made.Success? {
      var c1 := c.(index := c.index + 1);
      ConsumedStep(atoms, c.index);
      assert Tracks(atoms, c1);
      OpenControl(atoms, c, parent);
      var q := ParseChildren(atoms, c1, made.value);
      ParseChildrenTracks(atoms, c1, made.value);
      ParseChildrenKeeps(atoms, c1, made.value);
      assert q.Parsed? ==> q.node.value.offset == c.offset && q.node.value.previousTextNode == c.lastText;
      assert TracksAfter(atoms, c, q);
    } else {
      assert ParseNode(atoms, c, parent).Raised?;
    }
  }

  lemma {:induction false} ParseChildrenTracks(atoms: seq<Atom>, c: Cursor, node: Node)
    requires node.ControlNode? && Tracks(atoms, c)
    ensures ParseChildren(atoms, c, node).Parsed? ==>
      Tracks(atoms, ParseChildren(atoms, c, node).cursor.(index := ParseChildren(atoms, c, node).cursor.index + 1))
    decreases Remaining(atoms, c.index), 3
  {
    var owner := Some(OwnerOf(node));
    var step := ParseNode(atoms, c, owner);
    if step.Parsed? && step.node.Some? {
      TakeChildTracks(atoms, c, node);
    } else {
      ParseNodeTracks(atoms, c, owner);
      StopChildren(atoms, c, node);
    }
  }

  /** The step of ParseChildrenTracks that appends a child and reads on. */
  lemma {:induction false} TakeChildTracks(atoms: seq<Atom>, c: Cursor, node: Node)
    requires node.ControlNode? && Tracks(atoms, c)
    requires ParseNode(atoms, c, Some(OwnerOf(node))).Parsed? && ParseNode(atoms, c, Some(OwnerOf(node))).node.Some?
    ensures ParseChildren(atoms, c, node).Parsed? ==>
      Tracks(atoms, ParseChildren(atoms, c, node).cursor.(index := ParseChildren(atoms, c, node).cursor.index + 1))
    decreases Remaining(atoms, c.index), 2
  {
    var step := ParseNode(atoms, c, Some(OwnerOf(node)));
    ParseNodeTracks(atoms, c, Some(OwnerOf(node)));
    var child := step.node.value;
    var next := node.(children := node.children + [child], size := node.size + child.size);
    TakeChild(atoms, c, node, child, step.cursor);
    ParseChildrenTracks(atoms, step.cursor.(index := step.cursor.index + 1), next);
  }

  /**
   * Reading children only appends to the control's children and adds to
   * its size: its offset, previousTextNode, role, name and every other
   * attribute stay as NewControlNode made them.
   */
  lemma {:induction false} ParseChildrenKeeps(atoms: seq<Atom>, c: Cursor, node: Node)
    requires node.ControlNode?
    ensures ParseChildren(atoms, c, node).Parsed? ==>
      Extends(ParseChildren(atoms, c, node).node.value, node)
    decreases Remaining(atoms, c.index), 1
  {
    var owner := Some(OwnerOf(node));
    var step := ParseNode(atoms, c, owner);
    if step.Parsed? && step.node.Some? {
      var child := step.node.value;
      var next := node.(children := node.children + [child], size := node.size + child.size);
      TakeChild(atoms, c, node, child, step.cursor);
      ParseChildrenKeeps(atoms, step.cursor.(index := step.cursor.index + 1), next);
    } else {
      StopChildren(atoms, c, node);
    }
  }

  /**
   * The tree update builds from the start of the stream is well formed,
   * starts at offset 0 and spans all the text of the fields it read.
   */
  lemma BuildWellFormed(atoms: seq<Atom>)
    ensures Build(atoms).Parsed? && Build(atoms).node.Some? ==>
      && WellFormed(Build(atoms).node.value)
      && !Build(atoms).node.value.TextNode?
      && Build(atoms).node.value.offset == 0
      && Build(atoms).node.value.size == TextLen(Consumed(atoms, Build(atoms).cursor.index + 1))
  {
    var c := Cursor(0, 0, None);
    assert Consumed(atoms, 0) == [];
    ParseNodeWellFormed(atoms, c, None);
    ParseNodeTracks(atoms, c, None);
  }

  /** The stream's edge cases at the top: nothing to read, a leading controlEnd, a leading text run with no parent. */
  lemma BuildEdgeCases(atoms: seq<Atom>)
    ensures atoms == [] ==> Build(atoms) == Parsed(None, Cursor(0, 0, None))
    ensures atoms != [] && atoms[0] == ControlEnd ==> Build(atoms).Parsed? && Build(atoms).node == None
    ensures atoms != [] && atoms[0].Text? ==> Build(atoms) == Raised(TextWithoutParent, Cursor(0, 0, None))
    ensures atoms != [] && atoms[0].ControlStart? && "role" !in atoms[0].field ==> Build(atoms).Raised?
  {
    if atoms != [] && atoms[0].ControlStart? {
      assert Build(atoms) == OpenAt(atoms, Cursor(0, 0, None), atoms[0].field);
    }
  }

  /** A controlStart with a role opens a control whose children are read from the next field on. */
  lemma OpenControl(atoms: seq<Atom>, c: Cursor, parent: Option<Owner>)
    requires c.index < |atoms| && atoms[c.index].ControlStart? && "role" in atoms[c.index].field
    ensures NewControlNode(atoms[c.index].field, c.offset, c.lastText).Success?
    ensures ParseNode(atoms, c, parent)
         == ParseChildren(atoms, c.(index := c.index + 1), NewControlNode(atoms[c.index].field, c.offset, c.lastText).value)
  {
  }

  /** A child read inside a control is appended and reading goes on after its last field. */
  lemma TakeChild(atoms: seq<Atom>, c: Cursor, node: Node, child: Node, c1: Cursor)
    requires node.ControlNode? && ParseNode(atoms, c, Some(OwnerOf(node))) == Parsed(Some(child), c1)
    ensures ParseChildren(atoms, c, node)
         == ParseChildren(atoms, c1.(index := c1.index + 1), node.(children := node.children + [child], size := node.size + child.size))
  {
  }

  /** Reading children stops at the first call that returns None, or raises what that call raised. */
  lemma StopChildren(atoms: seq<Atom>, c: Cursor, node: Node)
    requires node.ControlNode?
    requires !(ParseNode(atoms, c, Some(OwnerOf(node))).Parsed? && ParseNode(atoms, c, Some(OwnerOf(node))).node.Some?)
    ensures var p := ParseNode(atoms, c, Some(OwnerOf(node)));
      ParseChildren(atoms, c, node) == if p.Raised? then p else Parsed(Some(node), p.cursor)
  {
  }

  /** A formatChange becomes a marker of size zero at the cursor and leaves the cursor where it was. */
  lemma ReadFormat(atoms: seq<Atom>, c: Cursor, parent: Option<Owner>)
    requires c.index < |atoms| && atoms[c.index].FormatChange?
    ensures ParseNode(atoms, c, parent) == Parsed(Some(FormatNode(c.offset, 0, atoms[c.index].field)), c)
  {
  }

  /** A controlEnd inside a control, or the end of the stream, closes it. */
  lemma CloseControl(atoms: seq<Atom>, c: Cursor, node: Node)
    requires node.ControlNode? && (c.index >= |atoms| || atoms[c.index] == ControlEnd)
    ensures ParseChildren(atoms, c, node) == Parsed(Some(node), c)
  {
  }
}
