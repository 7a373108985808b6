# EDIq reconstruction, modelled in Dafny

EDIq is a command-line tool that reads an EDI interchange (X12 or EDIFACT).
It turns the interchange into an XML DOM whose element nodes belong to one of
four namespaces: loops, segments, composites and elements. It then evaluates an
XPath expression against that tree. Each selected node is written back as EDI
text, using the delimiters found in the interchange's own envelope.

This project models that reconstruction. It covers the four serializers and
the dispatch over the selected nodes.

- `edi_tree.dfy` (module `EdiTree`) holds the tree and the delimiters.
  - The four namespaces become the four constructors of `Node`.
  - The delimiter map becomes a record of four characters.
  - DOM `getTextContent` becomes `TextContent`.
- `string_builder.dfy` (module `Builder`) is the output buffer. It is a class
  whose `contents` only ever grows.
- `ediq.dfy` (module `EDIq`) holds the serializers as methods that append to
  that buffer.
  - `SerializeElement`, `SerializeComposite`, `SerializeSegment` and
    `SerializeLoop` each follow the Java method of the same name, loop for loop
    and branch for branch.
  - `SerializeMatches` is the per-node loop of `execute`.
  - Each method's postcondition says that the buffer's old contents are kept
    as a prefix, and that what it appends is exactly the text the matching
    function of `Reconstruction` gives.
- `reconstruction.dfy` (module `Reconstruction`) defines those functions and
  proves what the text looks like:
  - where the separators go and which one is chosen;
  - that splitting a composite or a segment at its delimiters gives back the
    parts;
  - that a loop's text is the lines of the segments it holds at any depth.
- `joining.dfy` (module `Joining`) holds the generic parts:
  - delimited joining, `Delimited`;
  - interleaving pieces with separators, `Interleave`;
  - the splitter `Split`, which is the inverse used in the round-trip lemmas.
- `samples.dfy` (module `Samples`) works through fragments of a 999
  acknowledgment with the delimiters `~ * : ^`.

Children of a kind that the source does not expect are treated exactly as
the Java code treats them:

- A loop skips them.
- A segment writes a separator for them but no text.
- A composite writes their whole text content.

## Model

| member | source | states |
|---|---|---|
| EDIq.SerializeElement | src/main/java/com/freighttrust/ediq/EDIq.java:276-278 | appends the node's text content verbatim and leaves the earlier buffer contents unchanged |
| EDIq.SerializeComposite | src/main/java/com/freighttrust/ediq/EDIq.java:256-266 | appends exactly the composite's text: its components in order, with a component separator before each one except the first |
| EDIq.SerializeSegment | src/main/java/com/freighttrust/ediq/EDIq.java:214-243 | appends the name, an element separator, the children, then the terminator; before child i > 0 it writes the repetition separator iff the child's local name equals child i-1's, else the element separator |
| EDIq.SerializeLoop | src/main/java/com/freighttrust/ediq/EDIq.java:186-201 | appends the children's text in order: nested loops recursively, and each segment followed by the line terminator iff format is set; the loop itself adds nothing |
| EDIq.SerializeMatches | src/main/java/com/freighttrust/ediq/EDIq.java:100-115 | one record per selected node, in selection order; record i is the text its kind's serializer gives, starting from an empty buffer |
| Reconstruction.EmptyComposite | src/main/java/com/freighttrust/ediq/EDIq.java:256-266 | a composite with no components contributes the empty string |
| Reconstruction.CompositeRoundTrip | src/main/java/com/freighttrust/ediq/EDIq.java:256-266 | when no component's text holds the component separator, splitting at it gives back exactly the component texts; the n components have exactly n-1 separators, none leading and none trailing |
| Reconstruction.FieldsAsInterleave | src/main/java/com/freighttrust/ediq/EDIq.java:222-240 | a segment's fields are their texts interleaved with exactly the separators that `Separators` chooses from adjacent names |
| Reconstruction.FieldsBoundary | src/main/java/com/freighttrust/ediq/EDIq.java:225-231 | between fields i-1 and i stands exactly one separator, chosen by name equality whatever the texts; the first i fields come before it and the rest after it |
| Reconstruction.SegmentFraming | src/main/java/com/freighttrust/ediq/EDIq.java:217-218 | a segment starts with its name and one element separator and ends with the terminator; with no children it is exactly name + element separator + terminator |
| Reconstruction.SegmentSingleTerminator | src/main/java/com/freighttrust/ediq/EDIq.java:242 | when neither the name, the field texts nor the separators contain the terminator, the last character is the segment's only terminator |
| Reconstruction.FieldsFreeOf | src/main/java/com/freighttrust/ediq/EDIq.java:222-240 | the fields' text avoids a set of characters when every field's text and both separators do |
| Reconstruction.SegmentRoundTrip | src/main/java/com/freighttrust/ediq/EDIq.java:214-243 | with delimiter-free name and field texts, splitting the segment at the element and repetition separators gives back the name and each field's text, with one element separator after the name and the name-chosen separators between fields |
| Reconstruction.SegmentsIn | src/main/java/com/freighttrust/ediq/EDIq.java:189-199 | the segments reachable from a loop's children through loops only, in document order, are all segments |
| Reconstruction.LoopAsSegmentLines | src/main/java/com/freighttrust/ediq/EDIq.java:186-201 | a loop's text is the concatenation of the lines of all the segments it holds at any depth, in order; in format mode every segment, the last one included, is followed by one line terminator, and otherwise none is |
| Reconstruction.LoopItemAsSegmentLines | src/main/java/com/freighttrust/ediq/EDIq.java:190-199 | the same for one loop child: a nested loop gives its segments' lines, a segment gives its own line, other kinds give nothing |
| Reconstruction.FormattedLoopEndsWithLineSep | src/main/java/com/freighttrust/ediq/EDIq.java:194-198 | in format mode a loop holding at least one segment ends with the line terminator |
| Reconstruction.LoopItemsAppend | src/main/java/com/freighttrust/ediq/EDIq.java:189-200 | the text of two consecutive runs of loop children is the concatenation of their texts: loops add no boundaries of their own |
| Reconstruction.NestedLoop | src/main/java/com/freighttrust/ediq/EDIq.java:192-193 | a nested loop contributes exactly what serializing it alone gives, and the outer text equals that of the loop with the nested one inlined |
| Reconstruction.FormatOnlyAffectsLoops | src/main/java/com/freighttrust/ediq/EDIq.java:104-112 | the record of a selected segment, composite or element does not depend on the format flag or the line terminator |
| Samples.AK2Segment | src/test/java/com/freighttrust/ediq/EDIqTest.java:90-97 | an AK2 segment with elements 837 and 0001 reconstructs as `AK2*837*0001~` |
| Samples.CTX05Composite | src/test/java/com/freighttrust/ediq/EDIqTest.java:100-105 | the CTX05 composite of 5 and 3 reconstructs as `5:3` |
| Samples.CTXRepetition | src/test/java/com/freighttrust/ediq/EDIqTest.java:84 | adjacent CTX01 repeats are joined by `^`, distinct fields by `*`, and an empty field keeps its separator: `CTX*A^A:2*CLM**5:3~` |
| Samples.IK4Loop | src/test/java/com/freighttrust/ediq/EDIqTest.java:56-71 | the IK4 loop gives `IK4*2*782*1~` followed by a line terminator in format mode and nothing after it otherwise |

## Left out

- Command-line handling (`setupCommandLine`, `abortCommand`, the options and the usage message): argument parsing, not reconstruction.
- Reading the input file or standard input, EDI parsing, the optional transaction schema, the StAX-to-DOM transform and XPath evaluation: library calls. The selected nodes are the input of `SerializeMatches`.
- Printing: `out.println` writes each record followed by a platform line break. `SerializeMatches` returns the records instead. That is where the extra blank line after a formatted loop comes from.
- `System.lineSeparator()` is the parameter `lineSep`.
- Exceptions, the stack traces printed for them, and closing the reader are not modelled.
- Delimiter lookup: the Java map can lack a role, and then `StringBuilder.append` would write the four characters `null`. The model takes all four delimiters as a total record, so it does not cover a missing role.
- DOM nodes that belong to none of the four namespaces are not modelled. This covers text, comments and other namespaces among the children of loops, segments and composites, and such a node selected by the XPath, for which the Java code prints an empty record. A text node among a segment's children would also make `getLocalName()` return null.
- The name-equality heuristic for repetitions is kept exactly as written. Two distinct elements that share a local name and stand next to each other are joined by the repetition separator. `FieldsBoundary` states this outright.
- The buffer's in-place growth and sharing are modelled by the one `StringBuilder` object that all the serializers share. Character encoding is not modelled: text is a sequence of `char`.
