/**
 * Worked instances of the reconstruction on pieces of an X12 999
 * acknowledgment, written with the delimiters `~` (segment), `*` (element),
 * `:` (component) and `^` (repetition).
 */
module Samples {
  import opened EdiTree
  import opened Reconstruction

  const X12 := Delimiters('~', '*', ':', '^')

  /** An AK2 segment of two simple elements. */
  lemma AK2Segment()
    ensures SegmentText(Segment("AK2", [Element("AK201", "837"), Element("AK202", "0001")]), X12)
         == "AK2*837*0001~"
  {
  }

  /** The CTX05 composite of two components. */
  lemma CTX05Composite()
    ensures CompositeText(Composite("CTX05", [Element("CTX05-01", "5"), Element("CTX05-02", "3")]), X12)
         == "5:3"
  {
  }

  /**
   * A CTX segment whose CTX01 repeats: the repeats are joined by the
   * repetition separator, the other fields by the element separator, and an
   * empty CTX04 still gets its separator.
   */
  lemma CTXRepetition()
    ensures SegmentText(Segment("CTX", [
              Composite("CTX01", [Element("CTX01-01", "A")]),
              Composite("CTX01", [Element("CTX01-01", "A"), Element("CTX01-02", "2")]),
              Element("CTX02", "CLM"),
              Element("CTX03", ""),
              Composite("CTX05", [Element("CTX05-01", "5"), Element("CTX05-02", "3")])]), X12)
         == "CTX*A^A:2*CLM**5:3~"
  {
    var fields := [
      Composite("CTX01", [Element("CTX01-01", "A")]),
      Composite("CTX01", [Element("CTX01-01", "A"), Element("CTX01-02", "2")]),
      Element("CTX02", "CLM"),
      Element("CTX03", ""),
      Composite("CTX05", [Element("CTX05-01", "5"), Element("CTX05-02", "3")])];
    assert FieldText(fields[0], X12) == "A";
    assert FieldText(fields[1], X12) == "A:2";
    assert FieldText(fields[4], X12) == "5:3";
    assert fields[..1] == [fields[0]];
    FieldStepOf(fields, 1, "A", "A^A:2");
    FieldStepOf(fields, 2, "A^A:2", "A^A:2*CLM");
    FieldStepOf(fields, 3, "A^A:2*CLM", "A^A:2*CLM*");
    FieldStepOf(fields, 4, "A^A:2*CLM*", "A^A:2*CLM**5:3");
    assert fields[..5] == fields;
  }

  /** The fields of a segment, one field further. */
  lemma FieldStepOf(fields: seq<Node>, i: nat, prefix: string, extended: string)
    requires 0 < i < |fields|
    requires FieldsText(fields[..i], X12) == prefix
    requires extended == prefix + [Separator(fields[i - 1], fields[i], X12)] + FieldText(fields[i], X12)
    ensures FieldsText(fields[..i + 1], X12) == extended
  {
    assert fields[..i + 1][..i] == fields[..i];
  }

  /** The IK4 loop, with and without one segment per line. */
  lemma IK4Loop()
    ensures var loop := Loop("L0003", [Segment("IK4", [Element("IK401", "2"), Element("IK402", "782"), Element("IK403", "1")])]);
      && LoopText(loop, X12, true, "\n") == "IK4*2*782*1~\n"
      && LoopText(loop, X12, false, "\n") == "IK4*2*782*1~"
  {
    var fields := [Element("IK401", "2"), Element("IK402", "782"), Element("IK403", "1")];
    var ik4 := Segment("IK4", fields);
    assert fields[..1] == [fields[0]];
    FieldStepOf(fields, 1, "2", "2*782");
    FieldStepOf(fields, 2, "2*782", "2*782*1");
    assert fields[..3] == fields;
    assert SegmentText(ik4, X12) == "IK4*2*782*1~";
    assert [ik4][..0] == [];
  }
}
