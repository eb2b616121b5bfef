/**
 * The part of the course page the tracker writes into: the children of one
 * element, each with a class name and a text.  The tracker's own displays are
 * the children of class `coursera-time-tracker` (one per module link) and
 * `coursera-total-time` (one under the course material header).
 */
module Sidebar {

  datatype Node = Node(className: string, text: string)

  const ModuleDisplayClass := "coursera-time-tracker"
  const TotalDisplayClass := "coursera-total-time"

  /** How many children carry the class. */
  function CountClass(nodes: seq<Node>, cls: string): nat
  {
    if nodes == [] then 0
    else (if nodes[0].className == cls then 1 else 0) + CountClass(nodes[1..], cls)
  }

  /** The children of any other class, in order. */
  function Others(nodes: seq<Node>, cls: string): seq<Node>
  {
    if nodes == [] then []
    else (if nodes[0].className == cls then [] else [nodes[0]]) + Others(nodes[1..], cls)
  }

  lemma {:induction false} CountClassAppend(a: seq<Node>, b: seq<Node>, cls: string)
    ensures CountClass(a + b, cls) == CountClass(a, cls) + CountClass(b, cls)
    ensures Others(a + b, cls) == Others(a, cls) + Others(b, cls)
  {
    if a != [] {
      assert (a + b)[1..] == a[1..] + b;
      CountClassAppend(a[1..], b, cls);
    } else {
      assert a + b == b;
    }
  }

  /** `nodes[i]` is the first child of the class. */
  predicate FirstOfClassAt(nodes: seq<Node>, cls: string, i: int)
  {
    0 <= i < |nodes| && nodes[i].className == cls && CountClass(nodes[..i], cls) == 0
  }

  /**
   * `querySelector('.' + cls)?.remove()`: the first child of the class goes
   * and every other child stays, in order.
   */
  function RemoveFirst(nodes: seq<Node>, cls: string): (r: seq<Node>)
    ensures CountClass(nodes, cls) == 0 ==> r == nodes
    ensures CountClass(nodes, cls) > 0 ==> exists i :: FirstOfClassAt(nodes, cls, i) && r == nodes[..i] + nodes[i + 1..]
    ensures CountClass(nodes, cls) > 0 ==> CountClass(r, cls) == CountClass(nodes, cls) - 1 && |r| == |nodes| - 1
    ensures Others(r, cls) == Others(nodes, cls)
  {
    if nodes == [] then []
    else if nodes[0].className == cls then
      assert FirstOfClassAt(nodes, cls, 0) && nodes[1..] == nodes[..0] + nodes[1..];
      nodes[1..]
    else
      var rest := RemoveFirst(nodes[1..], cls);
      assert ([nodes[0]] + rest)[1..] == rest;
      FirstOfClassShift(nodes, cls, rest);
      [nodes[0]] + rest
  }

  /** The first child of the class in the tail, shifted by the head of another class. */
  lemma FirstOfClassShift(nodes: seq<Node>, cls: string, rest: seq<Node>)
    requires nodes != [] && nodes[0].className != cls
    requires CountClass(nodes[1..], cls) > 0 ==> exists j :: FirstOfClassAt(nodes[1..], cls, j) && rest == nodes[1..][..j] + nodes[1..][j + 1..]
    ensures CountClass(nodes, cls) > 0 ==> exists i :: FirstOfClassAt(nodes, cls, i) && [nodes[0]] + rest == nodes[..i] + nodes[i + 1..]
  {
    if CountClass(nodes, cls) > 0 {
      var j :| FirstOfClassAt(nodes[1..], cls, j) && rest == nodes[1..][..j] + nodes[1..][j + 1..];
      assert nodes[..j + 1][1..] == nodes[1..][..j];
      assert nodes[..j + 1][0] == nodes[0];
      assert FirstOfClassAt(nodes, cls, j + 1);
      assert nodes[..j + 1] == [nodes[0]] + nodes[1..][..j];
      assert nodes[j + 2..] == nodes[1..][j + 1..];
    }
  }

  /**
   * "Remove existing display if any, then append a new one": the first
   * display of the class goes, every other child stays where it was, and the
   * new display is the last child.  There is one display of the class
   * afterwards unless there were several before.
   */
  function ReplaceDisplay(nodes: seq<Node>, cls: string, text: string): (r: seq<Node>)
    ensures CountClass(nodes, cls) == 0 ==> r == nodes + [Node(cls, text)]
    ensures CountClass(nodes, cls) > 0 ==> exists i :: FirstOfClassAt(nodes, cls, i) && r == nodes[..i] + nodes[i + 1..] + [Node(cls, text)]
    ensures r != [] && r[|r| - 1] == Node(cls, text)
    ensures CountClass(r, cls) == if CountClass(nodes, cls) == 0 then 1 else CountClass(nodes, cls)
    ensures Others(r, cls) == Others(nodes, cls)
  {
    var kept := RemoveFirst(nodes, cls);
    CountClassAppend(kept, [Node(cls, text)], cls);
    assert [Node(cls, text)][1..] == [];
    kept + [Node(cls, text)]
  }

  /** With two displays, the first goes and the second stays, with its own text, before the new one. */
  lemma ReplaceDisplayExample(a: string, b: string, c: string)
    ensures ReplaceDisplay([Node(ModuleDisplayClass, a), Node(ModuleDisplayClass, b)], ModuleDisplayClass, c)
            == [Node(ModuleDisplayClass, b), Node(ModuleDisplayClass, c)]
  {
    var nodes := [Node(ModuleDisplayClass, a), Node(ModuleDisplayClass, b)];
    assert FirstOfClassAt(nodes, ModuleDisplayClass, 0);
    assert nodes[1..] == [Node(ModuleDisplayClass, b)];
  }

  /** Taking away a display that was appended after children of other classes gives those children back. */
  lemma {:induction false} RemoveAppended(nodes: seq<Node>, cls: string, text: string)
    requires CountClass(nodes, cls) == 0
    ensures RemoveFirst(nodes + [Node(cls, text)], cls) == nodes
  {
    if nodes == [] {
      assert nodes + [Node(cls, text)] == [Node(cls, text)];
    } else {
      assert (nodes + [Node(cls, text)])[1..] == nodes[1..] + [Node(cls, text)];
      RemoveAppended(nodes[1..], cls, text);
    }
  }

  /**
   * Rendering twice leaves the page as rendering once with the second text:
   * with at most one display of the class, a re-render replaces it rather than
   * adding another.
   */
  lemma ReplaceDisplayTwice(nodes: seq<Node>, cls: string, first: string, second: string)
    requires CountClass(nodes, cls) <= 1
    ensures ReplaceDisplay(ReplaceDisplay(nodes, cls, first), cls, second) == ReplaceDisplay(nodes, cls, second)
  {
    var kept := RemoveFirst(nodes, cls);
    RemoveAppended(kept, cls, first);
  }
}
