/** The text toString builds: one line per node in node-left-right order,
    indented four spaces per depth, with a `null` line for the missing child
    of a node that has exactly one. How an element is written is a
    parameter (`render`): Java's `data.toString()` is not part of this
    model. */
module Rendering {
  import opened Trees

  /** Four spaces per level of depth. */
  function Indent(h: nat): seq<char>
  {
    if h == 0 then [] else Indent(h - 1) + "    "
  }

  /** What level(t, build, h) appends. */
  function Layout(t: Tree, h: nat, render: int -> seq<char>): seq<char>
  {
    match t
    case Empty => Indent(h) + "null\n"
    case Node(l, _, k, r) =>
      Indent(h) + render(k) + "\n"
      + (if l != Empty || r != Empty then Layout(l, h + 1, render) + Layout(r, h + 1, render) else [])
  }

  lemma {:induction false} Assoc(a: seq<char>, b: seq<char>, c: seq<char>)
    ensures a + (b + c) == a + b + c
  {
  }

  /** Text appended piece by piece equals the text appended whole. */
  lemma {:induction false} Joined(a: seq<char>, b: seq<char>, c: seq<char>, d: seq<char>, e: seq<char>)
    ensures a + b + c + d + e == a + (b + c + d + e)
  {
  }

  /** Number of line ends in a text. */
  function Lines(s: seq<char>): nat
  {
    if s == [] then 0 else (if s[0] == '\n' then 1 else 0) + Lines(s[1..])
  }

  /** Nodes with exactly one child: each gets a `null` line. */
  function Gaps(t: Tree): nat
  {
    match t
    case Empty => 0
    case Node(l, _, _, r) => (if (l == Empty) != (r == Empty) then 1 else 0) + Gaps(l) + Gaps(r)
  }

  lemma {:induction false} LinesAppend(a: seq<char>, b: seq<char>)
    ensures Lines(a + b) == Lines(a) + Lines(b)
    decreases |a|
  {
    if a != [] {
      assert (a + b)[0] == a[0] && (a + b)[1..] == a[1..] + b;
      LinesAppend(a[1..], b);
    } else {
      assert a + b == b;
    }
  }

  lemma {:induction false} IndentLines(h: nat)
    ensures Lines(Indent(h)) == 0 && '\n' !in Indent(h)
  {
    if h > 0 {
      IndentLines(h - 1);
      LinesAppend(Indent(h - 1), "    ");
      assert Lines("    "[1..][1..][1..][1..]) == 0;
    }
  }

  lemma {:induction false} NoLineEnd(s: seq<char>)
    requires '\n' !in s
    ensures Lines(s) == 0
    decreases |s|
  {
    if s != [] {
      assert s[0] in s;
      assert forall c :: c in s[1..] ==> c in s;
      NoLineEnd(s[1..]);
    }
  }

  /** The rendering of a non-empty tree has one line per node plus one
      `null` line per node with a single child, provided no element renders
      with a line break. */
  lemma {:induction false} LayoutLines(t: Tree, h: nat, render: int -> seq<char>)
    requires forall k :: '\n' !in render(k)
    ensures t != Empty ==> Lines(Layout(t, h, render)) == Size(t) + Gaps(t)
    ensures t == Empty ==> Lines(Layout(t, h, render)) == 1
  {
    IndentLines(h);
    match t
    case Empty =>
      LinesAppend(Indent(h), "null\n");
      assert Lines("null\n") == 1 by {
        assert "null\n"[1..][1..][1..][1..] == "\n";
      }
    case Node(l, _, k, r) =>
      NoLineEnd(render(k));
      LinesAppend(Indent(h), render(k));
      LinesAppend(Indent(h) + render(k), "\n");
      var kids := if l != Empty || r != Empty then Layout(l, h + 1, render) + Layout(r, h + 1, render) else [];
      LinesAppend(Indent(h) + render(k) + "\n", kids);
      if l != Empty || r != Empty {
        LayoutLines(l, h + 1, render);
        LayoutLines(r, h + 1, render);
        LinesAppend(Layout(l, h + 1, render), Layout(r, h + 1, render));
      }
  }
}
