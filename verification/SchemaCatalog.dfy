/** The nested schema catalog and the code fences around its entries. */
module SchemaCatalog {
  import opened Basics
  import opened MarkdownFitting

  const HEADER: Text := Ascii("# Schema Catalog\n")

  function Preamble(version: Text, mediaType: Text, total: nat, retained: nat, truncated: bool): Text {
    Ascii("\n## Catalog\n\n- Schema version: ") + version + Ascii("\n- Media type: ") + mediaType
    + Ascii("\n- Schemas: total `") + Decimal(total) + Ascii("`, retained `") + Decimal(retained)
    + Ascii("`, truncated `") + Bool(truncated) + Ascii("`\n")
  }

  /** The catalog object: the declared counts may be missing, or smaller than what is there. */
  datatype Catalog = Catalog(
    version: Text, mediaType: Text, declaredTotal: Option<nat>, declaredTruncated: Option<bool>,
    schemas: seq<Text>, optional: seq<Text>)

  function Total(c: Catalog): (total: nat)
    ensures total >= |c.schemas|
  {
    if c.declaredTotal.Some? && c.declaredTotal.value > |c.schemas| then c.declaredTotal.value
    else |c.schemas|
  }

  function SourceTruncated(c: Catalog): bool {
    if c.declaredTruncated.Some? then c.declaredTruncated.value else Total(c) > |c.schemas|
  }

  function PreambleFor(c: Catalog, retained: nat): Text {
    Preamble(c.version, c.mediaType, Total(c), retained, SourceTruncated(c) || Total(c) > retained)
  }

  lemma PreambleGrows(c: Catalog, j: nat, k: nat)
    requires j <= k
    ensures |PreambleFor(c, j)| <= |PreambleFor(c, k)|
  {
    DecimalGrows(j, k);
    hide Decimal;
  }

  function CompleteText(c: Catalog): Text {
    HEADER + PreambleFor(c, |c.schemas|) + Concat(c.schemas) + Concat(c.optional)
  }

  /** The text with some of the schemas, whose preamble prints how many. */
  function KeptText(c: Catalog, kept: seq<nat>): Text
    requires forall i :: 0 <= i < |kept| ==> kept[i] < |c.schemas|
  {
    HEADER + PreambleFor(c, |kept|) + Concat(Pick(c.schemas, kept))
  }

  /** A schema is kept exactly when it fits behind those kept before it, with the preamble that
      counts it. */
  ghost predicate GreedySchemas(c: Catalog, available: nat, kept: seq<nat>) {
    && Increasing(kept, |c.schemas|)
    && forall i :: 0 <= i < |c.schemas| ==> (i in kept <==> FitsNext(c, Below(kept, i), i, available))
  }

  ghost predicate FitsNext(c: Catalog, before: seq<nat>, i: nat, available: nat) {
    && i < |c.schemas| && (forall j :: 0 <= j < |before| ==> before[j] < |c.schemas|)
    && |HEADER| + |PreambleFor(c, |before| + 1)| + |Concat(Pick(c.schemas, before))| + |c.schemas[i]|
       <= available
  }

  lemma OneMoreSchema(c: Catalog, kept: seq<nat>, i: nat, available: nat)
    requires Increasing(kept, i) && i < |c.schemas|
    ensures Increasing(kept, |c.schemas|) && Increasing(kept + [i], |c.schemas|)
    ensures |KeptText(c, kept + [i])|
            == |HEADER| + |PreambleFor(c, |kept| + 1)| + |Concat(Pick(c.schemas, kept))| + |c.schemas[i]|
    ensures FitsNext(c, kept, i, available) <==> |KeptText(c, kept + [i])| <= available
  {
    PickOneMore(c.schemas, kept, i);
    hide Concat, PreambleFor, HEADER, Pick;
  }

  /** The greedy loop over the schemas. */
  method KeepSchemas(c: Catalog, available: nat) returns (kept: seq<nat>)
    ensures GreedySchemas(c, available, kept)
    ensures kept != [] ==> |KeptText(c, kept)| <= available
  {
    hide Concat, PreambleFor, HEADER, Below, Pick, KeptText, FitsNext;
    kept := [];
    var bytes := 0;
    NothingPicked(c.schemas);
    var i := 0;
    while i < |c.schemas|
      invariant 0 <= i <= |c.schemas| && Increasing(kept, i) && Increasing(kept, |c.schemas|)
      invariant bytes == |Concat(Pick(c.schemas, kept))|
      invariant kept != [] ==> |KeptText(c, kept)| <= available
      invariant forall m :: 0 <= m < i ==> (m in kept <==> FitsNext(c, Below(kept, m), m, available))
    {
      PickOneMore(c.schemas, kept, i);
      OneMoreSchema(c, kept, i, available);
      BelowAfter(kept, i);
      if |HEADER| + |PreambleFor(c, |kept| + 1)| + bytes + |c.schemas[i]| <= available {
        bytes := bytes + |c.schemas[i]|;
        kept := kept + [i];
      }
      i := i + 1;
    }
  }

  lemma SchemasIncrease(c: Catalog, available: nat, kept: seq<nat>)
    requires GreedySchemas(c, available, kept)
    ensures Increasing(kept, |c.schemas|)
  {
  }

  /**
   `render_nested_schema_catalog`: the complete text if it fits; otherwise greedily kept schemas
   behind a preamble that prints their true number, greedily kept optional blocks, and the notice
   whenever it fits. The text stays within the maximum if and only if the header and the preamble
   of an empty catalog do.
   */
  method RenderNested(c: Catalog, maximum: nat)
    returns (output: Text, ghost kept: seq<nat>, ghost extra: seq<nat>)
    ensures |output| <= maximum <==> |HEADER| + |PreambleFor(c, 0)| <= maximum
    ensures |CompleteText(c)| <= maximum ==> output == CompleteText(c)
    ensures |CompleteText(c)| > maximum ==>
      var available := if maximum < |TRUNCATION_NOTICE| then 0 else maximum - |TRUNCATION_NOTICE|;
      && GreedySchemas(c, available, kept)
      && Greedy(c.optional, |KeptText(c, kept)|, available, extra)
      && var text := KeptText(c, kept) + Concat(Pick(c.optional, extra));
         output == text + (if |text| + |TRUNCATION_NOTICE| <= maximum then TRUNCATION_NOTICE else [])
  {
    hide Concat, Preamble, HEADER, TRUNCATION_NOTICE, Pick, GreedySchemas, Greedy;
    kept, extra := [], [];
    PreambleGrows(c, 0, |c.schemas|);
    var complete := CompleteText(c);
    if |complete| <= maximum {
      return complete, [], [];
    }
    var available := if maximum < |TRUNCATION_NOTICE| then 0 else maximum - |TRUNCATION_NOTICE|;
    var positions := KeepSchemas(c, available);
    assert Increasing(positions, |c.schemas|) by { SchemasIncrease(c, available, positions); }
    kept := positions;
    PreambleGrows(c, 0, |positions|);
    NothingPicked(c.schemas);
    var start := KeptText(c, positions);
    output, extra := AppendWhole(start, c.optional, available);
    GreedyIncreases(c.optional, |start|, available, extra);
    if |output| + |TRUNCATION_NOTICE| <= maximum {
      output := output + TRUNCATION_NOTICE;
    } else {
      assert output + [] == output;
    }
  }

  // ---------------------------------------------------------------- fences

  /** Positions `from` up to `to` hold nothing but the delimiter. */
  predicate RunAt(value: Text, delimiter: Byte, from: nat, to: nat)
    requires from <= to <= |value|
  {
    forall i :: from <= i < to ==> value[i] == delimiter
  }

  ghost predicate HasRun(value: Text, delimiter: Byte, length: nat) {
    exists from, to ::
      0 <= from <= to <= |value| && RunAt(value, delimiter, from, to) && to - from == length
  }

  /** The longest run of the delimiter, as splitting on every other character measures it. */
  method LongestRun(value: Text, delimiter: Byte) returns (longest: nat)
    ensures HasRun(value, delimiter, longest)
    ensures forall from, to :: 0 <= from <= to <= |value| && RunAt(value, delimiter, from, to) ==>
              to - from <= longest
  {
    longest := 0;
    var current := 0;
    ghost var a, b := 0, 0;
    var i := 0;
    while i < |value|
      invariant 0 <= current <= i <= |value| && current <= longest
      invariant RunAt(value, delimiter, i - current, i)
      invariant current == i || value[i - current - 1] != delimiter
      invariant 0 <= a <= b <= i && RunAt(value, delimiter, a, b) && b - a == longest
      invariant forall from, to :: 0 <= from <= to <= i && RunAt(value, delimiter, from, to) ==>
                  to - from <= longest
    {
      if value[i] == delimiter {
        current := current + 1;
      } else {
        current := 0;
      }
      i := i + 1;
      if current > longest {
        longest := current;
        a, b := i - current, i;
      }
      forall from, to | 0 <= from <= to <= i && RunAt(value, delimiter, from, to)
        ensures to - from <= longest
      {
        if to == i && from < i {
          assert from >= i - current;
        } else if from < to {
          assert to <= i - 1;
        }
      }
    }
    assert RunAt(value, delimiter, a, b);
  }

  function Repeat(delimiter: Byte, n: nat): Text {
    seq(n, _ => delimiter)
  }

  lemma OccurrenceIsARun(value: Text, delimiter: Byte, n: nat, i: nat)
    requires OccursAt(value, Repeat(delimiter, n), i)
    ensures RunAt(value, delimiter, i, i + n)
  {
    var part := Repeat(delimiter, n);
    assert forall m :: i <= m < i + n ==> value[m] == value[i..i + n][m - i] == part[m - i];
  }

  /** `fence_marker_for`: at least three delimiters, one more than the longest run inside the value
      if that is longer, so the value cannot close its own fence. */
  method FenceMarker(value: Text, delimiter: Byte) returns (fence: Text)
    ensures |fence| >= 3 && fence == Repeat(delimiter, |fence|)
    ensures forall i :: !OccursAt(value, fence, i)
    ensures |fence| > 3 ==> HasRun(value, delimiter, |fence| - 1)
  {
    var longest := LongestRun(value, delimiter);
    var n := (if longest > 2 then longest else 2) + 1;
    fence := Repeat(delimiter, n);
    forall i: nat
      ensures !OccursAt(value, fence, i)
    {
      if OccursAt(value, fence, i) {
        OccurrenceIsARun(value, delimiter, n, i);
      }
    }
  }
}
