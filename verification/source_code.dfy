/**
 * `SourceCodeBuilder`, the text buffer the generator writes a unit into. Its indentation is
 * not modelled: the buffer is the list of lines, where opening and closing a block are marker
 * lines of their own.
 */
module SourceCode {

  /** One line of a unit: text, or the opening / closing brace of a block. */
  datatype Line = Text(text: string) | OpenBrace | CloseBrace

  /** Text lines for each string, in order. */
  function TextLines(texts: seq<string>): (r: seq<Line>)
    ensures |r| == |texts|
    ensures forall i :: 0 <= i < |texts| ==> r[i] == Text(texts[i])
  {
    if texts == [] then [] else [Text(texts[0])] + TextLines(texts[1..])
  }

  /** Open blocks minus closed blocks: 0 for a balanced run of lines. */
  function Depth(lines: seq<Line>): int
  {
    if lines == [] then 0
    else (match lines[0] case OpenBrace => 1 case CloseBrace => -1 case Text(_) => 0) + Depth(lines[1..])
  }

  lemma {:induction false} DepthAppend(a: seq<Line>, b: seq<Line>)
    ensures Depth(a + b) == Depth(a) + Depth(b)
  {
    if a != [] {
      assert (a + b)[0] == a[0] && (a + b)[1..] == a[1..] + b;
      DepthAppend(a[1..], b);
    } else {
      assert a + b == b;
    }
  }

  lemma {:induction false} DepthOfText(texts: seq<string>)
    ensures Depth(TextLines(texts)) == 0
  {
    if texts != [] {
      DepthOfText(texts[1..]);
    }
  }

  /** Proof step for the builder loops: regroups three runs of lines, so that the solver
    * does not search for the regrouping itself. */
  lemma AppendAssociative(a: seq<Line>, b: seq<Line>, c: seq<Line>)
    ensures a + b + c == a + (b + c)
  {
  }

  /** Proof step for the builder loops: regroups three unions of namespaces. */
  lemma UnionAssociative(a: set<string>, b: set<string>, c: set<string>)
    ensures a + b + c == a + (b + c)
  {
  }

  /** The builder: the lines appended so far. */
  class SourceCodeBuilder {
    var lines: seq<Line>

    constructor ()
      ensures lines == []
    {
      lines := [];
    }

    method AppendLine(text: string)
      modifies this
      ensures lines == old(lines) + [Text(text)]
    {
      lines := lines + [Text(text)];
    }

    method OpenBlock()
      modifies this
      ensures lines == old(lines) + [OpenBrace]
    {
      lines := lines + [OpenBrace];
    }

    method CloseBlock()
      modifies this
      ensures lines == old(lines) + [CloseBrace]
    {
      lines := lines + [CloseBrace];
    }

    method PrependLine(text: string)
      modifies this
      ensures lines == [Text(text)] + old(lines)
    {
      lines := [Text(text)] + lines;
    }

    method PrependLines(texts: seq<string>)
      modifies this
      ensures lines == TextLines(texts) + old(lines)
    {
      lines := TextLines(texts) + lines;
    }
  }
}
