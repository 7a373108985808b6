/**
 * The serializers of EDIq: each walks one node of the interchange tree and
 * appends its reconstructed EDI text to a shared buffer, and the dispatch
 * loop that serializes each selected node into a record of its own.
 *
 * Every serializer is proved to append exactly the text the corresponding
 * function of Reconstruction gives, so the buffer's earlier contents are
 * kept as a prefix and left unchanged.
 */
module EDIq {
  import opened EdiTree
  import opened Joining
  import opened Reconstruction
  import opened Builder

  /** The local name of the previous child, absent before the first one. */
  datatype Option<T> = None | Some(value: T)

  /** Appends the element's text content verbatim, with no escaping. */
  method SerializeElement(element: Node, output: StringBuilder)
    modifies output
    ensures output.contents == old(output.contents) + TextContent(element)
  {
    output.Append(TextContent(element));
  }

  /** Appends the composite's components, a component separator before each but the first. */
  method SerializeComposite(composite: Node, d: Delimiters, output: StringBuilder)
    modifies output
    ensures output.contents == old(output.contents) + CompositeText(composite, d)
  {
    var components := Children(composite);
    for i := 0 to |components|
      invariant output.contents == old(output.contents) + ComponentsText(components[..i], d)
    {
      ghost var before := output.contents;
      if i > 0 {
        output.Append([d.component]);
      }
      ghost var separated := output.contents;
      SerializeElement(components[i], output);
      DelimitedStep(old(output.contents), before, separated, output.contents,
                    components, i, TextContent, (prev: Node, next: Node) => d.component);
    }
    assert components[..|components|] == components;
  }

  /**
   * Appends the segment's name and an element separator, then its children,
   * each after the first preceded by the repetition separator when its local
   * name equals the previous child's and by the element separator otherwise,
   * then the segment terminator.
   */
  method SerializeSegment(segment: Node, d: Delimiters, output: StringBuilder)
    modifies output
    ensures output.contents == old(output.contents) + SegmentText(segment, d)
  {
    var elements := Children(segment);
    output.Append(segment.name);
    output.Append([d.element]);
    ghost var start := output.contents;

    var previousElementName: Option<string> := None;

    for i := 0 to |elements|
      invariant output.contents == start + FieldsText(elements[..i], d)
      invariant previousElementName == if i == 0 then None else Some(elements[i - 1].name)
    {
      var element := elements[i];
      ghost var before := output.contents;
      if i > 0 {
        if Some(element.name) == previousElementName {
          output.Append([d.repetition]);
        } else {
          output.Append([d.element]);
        }
      }
      ghost var separated := output.contents;
      if element.Composite? {
        SerializeComposite(element, d, output);
      } else if element.Element? {
        SerializeElement(element, output);
      }
      assert output.contents == separated + FieldText(element, d);
      FieldStep(start, before, separated, output.contents, elements, i, d);
      previousElementName := Some(element.name);
    }
    assert elements[..|elements|] == elements;

    output.Append([d.segment]);
  }

  /** One iteration of SerializeSegment's loop keeps its invariant. */
  lemma FieldStep(start: string, before: string, separated: string, after: string, elements: seq<Node>, i: nat, d: Delimiters)
    requires i < |elements|
    requires before == start + FieldsText(elements[..i], d)
    requires separated == before + (if i > 0 then [Separator(elements[i - 1], elements[i], d)] else [])
    requires after == separated + FieldText(elements[i], d)
    ensures after == start + FieldsText(elements[..i + 1], d)
  {
    DelimitedStep(start, before, separated, after, elements, i,
                  (f: Node) => FieldText(f, d), (prev: Node, next: Node) => Separator(prev, next, d));
  }

  /**
   * Appends the loop's children in order: nested loops recursively, segments
   * followed by the line terminator when `format` is set. The loop itself
   * writes nothing.
   */
  method SerializeLoop(loop: Node, d: Delimiters, format: bool, lineSep: string, output: StringBuilder)
    modifies output
    ensures output.contents == old(output.contents) + LoopText(loop, d, format, lineSep)
    decreases loop
  {
    var nodes := Children(loop);
    for i := 0 to |nodes|
      invariant output.contents == old(output.contents) + LoopItemsText(nodes[..i], d, format, lineSep)
    {
      var node := nodes[i];
      ghost var before := output.contents;
      if node.Loop? {
        assert node in loop.children;
        SerializeLoop(node, d, format, lineSep, output);
      } else if node.Segment? {
        SerializeSegment(node, d, output);
        if format {
          output.Append(lineSep);
        }
      }
      assert output.contents == before + LoopItemText(node, d, format, lineSep);
      LoopStep(old(output.contents), before, output.contents, nodes, i, d, format, lineSep);
    }
    assert nodes[..|nodes|] == nodes;
  }

  /** One iteration of SerializeLoop's loop keeps its invariant. */
  lemma LoopStep(start: string, before: string, after: string, nodes: seq<Node>, i: nat,
                 d: Delimiters, format: bool, lineSep: string)
    requires i < |nodes|
    requires before == start + LoopItemsText(nodes[..i], d, format, lineSep)
    requires after == before + LoopItemText(nodes[i], d, format, lineSep)
    ensures after == start + LoopItemsText(nodes[..i + 1], d, format, lineSep)
  {
    LoopItemsSnoc(nodes[..i], nodes[i], d, format, lineSep);
    assert nodes[..i + 1] == nodes[..i] + [nodes[i]];
  }

  /**
   * The dispatch over the selected nodes: each node, in selection order, is
   * serialized into a fresh buffer by the serializer for its kind, and the
   * buffer becomes one record. Only a loop is given the format flag.
   */
  method SerializeMatches(matches: seq<Node>, d: Delimiters, format: bool, lineSep: string) returns (records: seq<string>)
    ensures |records| == |matches|
    ensures forall i :: 0 <= i < |matches| ==> records[i] == NodeText(matches[i], d, format, lineSep)
  {
    records := [];
    for i := 0 to |matches|
      invariant |records| == i
      invariant forall k :: 0 <= k < i ==> records[k] == NodeText(matches[k], d, format, lineSep)
    {
      var output := new StringBuilder();
      var node := matches[i];

      if node.Loop? {
        SerializeLoop(node, d, format, lineSep, output);
      } else if node.Segment? {
        SerializeSegment(node, d, output);
      } else if node.Composite? {
        SerializeComposite(node, d, output);
      } else {
        // the elements namespace: the only kind left
        SerializeElement(node, output);
      }

      records := records + [output.contents];
    }
  }
}
