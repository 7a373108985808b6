/**
 * What each serializer produces, as functions of the node and the
 * delimiters, and the properties of that text: how a composite and a segment
 * are delimited, which separator stands between two neighbouring fields, and
 * how a loop's text is made of the segments it holds.
 */
module Reconstruction {
  import opened EdiTree
  import opened Joining

  // ---------------------------------------------------------------- composite

  /** Components joined by the component separator. */
  function ComponentsText(components: seq<Node>, d: Delimiters): string
  {
    Delimited(components, TextContent, (prev: Node, next: Node) => d.component)
  }

  /** A composite: the text of its components, joined by the component separator. */
  function CompositeText(composite: Node, d: Delimiters): string
  {
    ComponentsText(Children(composite), d)
  }

  /** A composite without components contributes nothing. */
  lemma EmptyComposite(name: string, d: Delimiters)
    ensures CompositeText(Composite(name, []), d) == []
  {
  }

  /**
   * A composite of n >= 1 components whose texts hold no component separator
   * splits back into exactly those texts, in order, with exactly n - 1
   * separators: none leading, none trailing.
   */
  lemma CompositeRoundTrip(composite: Node, d: Delimiters)
    requires |Children(composite)| >= 1
    requires forall c :: c in Children(composite) ==> FreeOf(TextContent(c), {d.component})
    ensures Split(CompositeText(composite, d), {d.component})
         == (Texts(Children(composite), TextContent), Repeat(d.component, |Children(composite)| - 1))
  {
    var components := Children(composite);
    var sep := (prev: Node, next: Node) => d.component;
    var texts := Texts(components, TextContent);
    DelimitedAsInterleave(components, TextContent, sep);
    assert Gaps(components, sep) == Repeat(d.component, |components| - 1);
    forall i | 0 <= i < |texts| ensures FreeOf(texts[i], {d.component}) {
      assert components[i] in components;
    }
    SplitInterleave(texts, Repeat(d.component, |components| - 1), {d.component});
  }

  // ------------------------------------------------------------------ segment

  /**
   * The separator written before `next` when `prev` precedes it in a segment:
   * the repetition separator when the two have the same local name, the
   * element separator otherwise.
   */
  function Separator(prev: Node, next: Node, d: Delimiters): char
  {
    if next.name == prev.name then d.repetition else d.element
  }

  /** What one child of a segment contributes; children of other kinds contribute nothing. */
  function FieldText(field: Node, d: Delimiters): string
  {
    match field
    case Composite(_, _) => CompositeText(field, d)
    case Element(_, _) => TextContent(field)
    case Loop(_, _) => []
    case Segment(_, _) => []
  }

  /** The children of a segment, each after the first preceded by its separator. */
  function FieldsText(fields: seq<Node>, d: Delimiters): string
  {
    Delimited(fields, (f: Node) => FieldText(f, d), (prev: Node, next: Node) => Separator(prev, next, d))
  }

  /** A segment: its name, an element separator, its fields, the segment terminator. */
  function SegmentText(segment: Node, d: Delimiters): string
  {
    segment.name + [d.element] + FieldsText(Children(segment), d) + [d.segment]
  }

  /** Each field's text, in order. */
  function FieldTexts(fields: seq<Node>, d: Delimiters): (r: seq<string>)
    ensures |r| == |fields|
    ensures forall i :: 0 <= i < |fields| ==> r[i] == FieldText(fields[i], d)
  {
    Texts(fields, (f: Node) => FieldText(f, d))
  }

  /**
   * Reference definition of the separators between n fields: the n - 1 gaps,
   * gap i holding the repetition separator exactly when fields i and i + 1
   * have the same local name and the element separator otherwise. Only the
   * names are consulted.
   */
  function Separators(fields: seq<Node>, d: Delimiters): (r: seq<char>)
    requires |fields| >= 1
    ensures |r| == |fields| - 1
    ensures forall i :: 0 <= i < |fields| - 1 ==>
              r[i] == (if fields[i + 1].name == fields[i].name then d.repetition else d.element)
  {
    seq(|fields| - 1, i requires 0 <= i < |fields| - 1 =>
      if fields[i + 1].name == fields[i].name then d.repetition else d.element)
  }

  /** The fields of a segment are their texts interleaved with the name-chosen separators. */
  lemma FieldsAsInterleave(fields: seq<Node>, d: Delimiters)
    requires |fields| >= 1
    ensures FieldsText(fields, d) == Interleave(FieldTexts(fields, d), Separators(fields, d))
  {
    var sep := (prev: Node, next: Node) => Separator(prev, next, d);
    DelimitedAsInterleave(fields, (f: Node) => FieldText(f, d), sep);
    assert Gaps(fields, sep) == Separators(fields, d);
  }

  /**
   * Between fields i - 1 and i there is exactly one separator: the
   * repetition separator when their local names are equal, the element
   * separator otherwise, whatever their text. Everything before it is the
   * text of the first i fields, everything after it that of the rest.
   */
  lemma FieldsBoundary(fields: seq<Node>, i: nat, d: Delimiters)
    requires 0 < i < |fields|
    ensures FieldsText(fields, d)
         == FieldsText(fields[..i], d)
            + [if fields[i].name == fields[i - 1].name then d.repetition else d.element]
            + FieldsText(fields[i..], d)
  {
    DelimitedBoundary(fields, i, (f: Node) => FieldText(f, d), (prev: Node, next: Node) => Separator(prev, next, d));
  }

  /**
   * A segment begins with its name and one element separator, even without
   * children, and ends with the segment terminator; without children it is
   * exactly those three parts.
   */
  lemma SegmentFraming(segment: Node, d: Delimiters)
    ensures var r := SegmentText(segment, d);
      && |r| >= |segment.name| + 2
      && r[..|segment.name|] == segment.name
      && r[|segment.name|] == d.element
      && r[|r| - 1] == d.segment
      && (|Children(segment)| == 0 ==> r == segment.name + [d.element, d.segment])
  {
    var r := SegmentText(segment, d);
    assert r == segment.name + ([d.element] + FieldsText(Children(segment), d) + [d.segment]);
  }

  /**
   * When neither the name nor any field contains the segment terminator, and
   * the two separators differ from it, the final character of a segment is
   * its only terminator.
   */
  lemma SegmentSingleTerminator(segment: Node, d: Delimiters)
    requires FreeOf(segment.name, {d.segment})
    requires d.element != d.segment && d.repetition != d.segment
    requires forall f :: f in Children(segment) ==> FreeOf(FieldText(f, d), {d.segment})
    ensures var r := SegmentText(segment, d);
      && r[|r| - 1] == d.segment
      && FreeOf(r[..|r| - 1], {d.segment})
  {
    var fields := Children(segment);
    FieldsFreeOf(fields, d, {d.segment});
    FreeOfAppend(segment.name, [d.element], {d.segment});
    FreeOfAppend(segment.name + [d.element], FieldsText(fields, d), {d.segment});
    var r := SegmentText(segment, d);
    assert r[..|r| - 1] == segment.name + [d.element] + FieldsText(fields, d);
  }

  /** The fields of a segment hold none of `delims` when no field text and neither separator does. */
  lemma FieldsFreeOf(fields: seq<Node>, d: Delimiters, delims: set<char>)
    requires d.element !in delims && d.repetition !in delims
    requires forall f :: f in fields ==> FreeOf(FieldText(f, d), delims)
    ensures FreeOf(FieldsText(fields, d), delims)
  {
    if |fields| >= 1 {
      var texts, seps := FieldTexts(fields, d), Separators(fields, d);
      forall i | 0 <= i < |texts| ensures FreeOf(texts[i], delims) {
        assert fields[i] in fields;
      }
      FieldsAsInterleave(fields, d);
      InterleaveFreeOf(texts, seps, delims);
    }
  }

  /**
   * Round trip for a segment with at least one child: when neither its name
   * nor any field's text contains the element or repetition separator, the
   * text before the terminator splits back into the name and the field
   * texts, and the delimiters found are one element separator followed by
   * the separators chosen from adjacent names.
   */
  lemma SegmentRoundTrip(segment: Node, d: Delimiters)
    requires |Children(segment)| >= 1
    requires FreeOf(segment.name, {d.element, d.repetition})
    requires forall f :: f in Children(segment) ==> FreeOf(FieldText(f, d), {d.element, d.repetition})
    ensures var r := SegmentText(segment, d);
      && r[|r| - 1] == d.segment
      && Split(r[..|r| - 1], {d.element, d.repetition})
         == ([segment.name] + FieldTexts(Children(segment), d),
             [d.element] + Separators(Children(segment), d))
  {
    var fields := Children(segment);
    var texts, seps := FieldTexts(fields, d), Separators(fields, d);
    var r := SegmentText(segment, d);
    var body := segment.name + [d.element] + FieldsText(fields, d);
    assert r[..|r| - 1] == body;
    FieldsAsInterleave(fields, d);
    InterleaveCons(segment.name, d.element, texts, seps);
    var pieces := [segment.name] + texts;
    forall i | 0 <= i < |pieces| ensures FreeOf(pieces[i], {d.element, d.repetition}) {
      if i > 0 {
        assert fields[i - 1] in fields;
      }
    }
    SplitInterleave(pieces, [d.element] + seps, {d.element, d.repetition});
  }

  // --------------------------------------------------------------------- loop

  /** One segment's text, followed by one line terminator when formatting. */
  function SegmentLine(segment: Node, d: Delimiters, format: bool, lineSep: string): string
  {
    SegmentText(segment, d) + (if format then lineSep else [])
  }

  /** What one child of a loop contributes; composites and elements contribute nothing. */
  function LoopItemText(item: Node, d: Delimiters, format: bool, lineSep: string): string
    decreases item
  {
    match item
    case Loop(_, children) => LoopItemsText(children, d, format, lineSep)
    case Segment(_, _) => SegmentLine(item, d, format, lineSep)
    case Composite(_, _) => []
    case Element(_, _) => []
  }

  /** The children of a loop, in order, each contributing its own text and nothing between. */
  function LoopItemsText(items: seq<Node>, d: Delimiters, format: bool, lineSep: string): string
    decreases items
  {
    if |items| == 0 then []
    else LoopItemsText(items[..|items| - 1], d, format, lineSep) + LoopItemText(items[|items| - 1], d, format, lineSep)
  }

  /** A loop: the text of its children. */
  function LoopText(loop: Node, d: Delimiters, format: bool, lineSep: string): string
  {
    LoopItemsText(Children(loop), d, format, lineSep)
  }

  /** The segments reached from `items` through loops only, in document order. */
  function SegmentsIn(items: seq<Node>): (r: seq<Node>)
    ensures forall s :: s in r ==> s.Segment?
    decreases items
  {
    if |items| == 0 then []
    else SegmentsIn(items[..|items| - 1]) + SegmentsInItem(items[|items| - 1])
  }

  /** The segments reached from one loop child. */
  function SegmentsInItem(item: Node): (r: seq<Node>)
    ensures forall s :: s in r ==> s.Segment?
    decreases item
  {
    match item
    case Loop(_, children) => SegmentsIn(children)
    case Segment(_, _) => [item]
    case Composite(_, _) => []
    case Element(_, _) => []
  }

  /** The segments' lines, one after the other. */
  function SegmentLines(segments: seq<Node>, d: Delimiters, format: bool, lineSep: string): string
  {
    ConcatMap(segments, (s: Node) => SegmentLine(s, d, format, lineSep))
  }

  /**
   * Reference definition of a loop's text: the loop adds nothing of its own
   * and nested loops add no boundaries; the text is that of the segments it
   * holds at any depth, in order, each followed by exactly one line
   * terminator in format mode (the last one included) and by none otherwise.
   */
  lemma {:induction false} LoopAsSegmentLines(items: seq<Node>, d: Delimiters, format: bool, lineSep: string)
    ensures LoopItemsText(items, d, format, lineSep) == SegmentLines(SegmentsIn(items), d, format, lineSep)
    decreases items
  {
    if |items| > 0 {
      var init, last := items[..|items| - 1], items[|items| - 1];
      LoopAsSegmentLines(init, d, format, lineSep);
      LoopItemAsSegmentLines(last, d, format, lineSep);
      ConcatMapAppend(SegmentsIn(init), SegmentsInItem(last), (s: Node) => SegmentLine(s, d, format, lineSep));
    }
  }

  /** LoopAsSegmentLines for a single loop child. */
  lemma {:induction false} LoopItemAsSegmentLines(item: Node, d: Delimiters, format: bool, lineSep: string)
    ensures LoopItemText(item, d, format, lineSep) == SegmentLines(SegmentsInItem(item), d, format, lineSep)
    decreases item
  {
    match item
    case Loop(_, children) =>
      LoopAsSegmentLines(children, d, format, lineSep);
    case Segment(_, _) =>
      assert [item][..0] == [];
      assert SegmentLines([item], d, format, lineSep) == SegmentLines([], d, format, lineSep) + SegmentLine(item, d, format, lineSep);
    case Composite(_, _) =>
    case Element(_, _) =>
  }

  /**
   * In format mode a loop holding at least one segment ends with the line
   * terminator: the last segment gets one too, and the record written for
   * the loop is that text with a further line break after it.
   */
  lemma FormattedLoopEndsWithLineSep(loop: Node, d: Delimiters, lineSep: string)
    requires |SegmentsIn(Children(loop))| > 0
    ensures var r := LoopText(loop, d, true, lineSep);
      && |r| >= |lineSep|
      && r[|r| - |lineSep|..] == lineSep
  {
    var segments := SegmentsIn(Children(loop));
    var line := (s: Node) => SegmentLine(s, d, true, lineSep);
    LoopAsSegmentLines(Children(loop), d, true, lineSep);
    var last := segments[|segments| - 1];
    var r := LoopText(loop, d, true, lineSep);
    var head := ConcatMap(segments[..|segments| - 1], line) + SegmentText(last, d);
    assert r == head + lineSep;
    assert r[|head|..] == lineSep;
  }

  /** One more loop child adds its own text at the end. */
  lemma LoopItemsSnoc(items: seq<Node>, item: Node, d: Delimiters, format: bool, lineSep: string)
    ensures LoopItemsText(items + [item], d, format, lineSep)
         == LoopItemsText(items, d, format, lineSep) + LoopItemText(item, d, format, lineSep)
  {
    assert (items + [item])[..|items|] == items;
  }

  /** The text of consecutive runs of loop children is the concatenation of their texts. */
  lemma {:induction false} LoopItemsAppend(a: seq<Node>, b: seq<Node>, d: Delimiters, format: bool, lineSep: string)
    ensures LoopItemsText(a + b, d, format, lineSep)
         == LoopItemsText(a, d, format, lineSep) + LoopItemsText(b, d, format, lineSep)
    decreases |b|
  {
    if |b| == 0 {
      assert a + b == a;
    } else {
      LoopItemsAppend(a, b[..|b| - 1], d, format, lineSep);
      assert (a + b)[..|a + b| - 1] == a + b[..|b| - 1];
    }
  }

  /**
   * A nested loop contributes exactly what serializing it alone gives, and
   * the outer text equals that of the loop with the nested one inlined.
   */
  lemma NestedLoop(before: seq<Node>, inner: Node, after: seq<Node>, d: Delimiters, format: bool, lineSep: string)
    requires inner.Loop?
    ensures LoopItemsText(before + [inner] + after, d, format, lineSep)
         == LoopItemsText(before, d, format, lineSep) + LoopText(inner, d, format, lineSep) + LoopItemsText(after, d, format, lineSep)
    ensures LoopItemsText(before + [inner] + after, d, format, lineSep)
         == LoopItemsText(before + Children(inner) + after, d, format, lineSep)
  {
    LoopItemsAppend(before + [inner], after, d, format, lineSep);
    LoopItemsAppend(before, [inner], d, format, lineSep);
    assert [inner][..0] == [];
    LoopItemsAppend(before + Children(inner), after, d, format, lineSep);
    LoopItemsAppend(before, Children(inner), d, format, lineSep);
  }

  // ----------------------------------------------------------------- dispatch

  /** The record written for one selected node, chosen by its kind. */
  function NodeText(node: Node, d: Delimiters, format: bool, lineSep: string): string
  {
    match node
    case Loop(_, _) => LoopText(node, d, format, lineSep)
    case Segment(_, _) => SegmentText(node, d)
    case Composite(_, _) => CompositeText(node, d)
    case Element(_, _) => TextContent(node)
  }

  /** Only a selected loop depends on the format flag and the line terminator. */
  lemma FormatOnlyAffectsLoops(node: Node, d: Delimiters, format: bool, lineSep: string)
    requires !node.Loop?
    ensures NodeText(node, d, format, lineSep) == NodeText(node, d, false, [])
  {
  }
}
