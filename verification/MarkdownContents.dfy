/** What the fitted Markdown says: its printed numbers can be read back, and complete blocks contain
    everything they were made of. */
module MarkdownContents {
  import opened Basics
  import opened MarkdownFitting
  import opened SchemaCatalog

  // ---------------------------------------------------------------- numbers

  function FromDecimal(digits: Text): nat {
    if digits == [] then 0
    else
      var last := digits[|digits| - 1];
      10 * FromDecimal(digits[..|digits| - 1]) + (if 48 <= last < 58 then last - 48 else 0)
  }

  predicate AllDigits(t: Text) {
    t != [] && forall i :: 0 <= i < |t| ==> 48 <= t[i] < 58
  }

  /** A printed number is read back. */
  lemma {:induction false} DecimalRoundTrip(n: nat)
    ensures FromDecimal(Decimal(n)) == n && AllDigits(Decimal(n))
  {
    if n >= 10 {
      DecimalRoundTrip(n / 10);
      assert Decimal(n)[..|Decimal(n)| - 1] == Decimal(n / 10);
    } else {
      assert Decimal(n)[..0] == [];
    }
  }

  const QUOTE: Text := Ascii("`")

  /** The text says, right behind a label and in back quotes, a number. */
  ghost predicate Says(text: Text, tag: Text, n: nat) {
    exists i: nat, digits: Text ::
      OccursAt(text, tag + digits + QUOTE, i) && AllDigits(digits) && FromDecimal(digits) == n
  }

  /** The part occurs somewhere in the text. */
  ghost predicate Shows(text: Text, part: Text) {
    exists i: nat :: OccursAt(text, part, i)
  }

  lemma Middle(before: Text, part: Text, after: Text)
    ensures OccursAt(before + part + after, part, |before|)
  {
  }

  lemma SaysNumber(text: Text, before: Text, tag: Text, n: nat, after: Text)
    requires text == before + (tag + Decimal(n) + QUOTE) + after
    ensures Says(text, tag, n)
  {
    DecimalRoundTrip(n);
    Middle(before, tag + Decimal(n) + QUOTE, after);
    assert OccursAt(text, tag + Decimal(n) + QUOTE, |before|);
  }

  const TOTAL: Text := Ascii("- Total: `")
  const RETAINED: Text := Ascii("- Retained: `")
  const TRUNCATED: Text := Ascii("- Truncated: `")

  lemma Pieces()
    ensures Ascii("\n\n- Total: `") == Ascii("\n\n") + TOTAL
    ensures Ascii("`\n- Retained: `") == QUOTE + Ascii("\n") + RETAINED
    ensures Ascii("`\n- Truncated: `") == QUOTE + Ascii("\n") + TRUNCATED
  {
  }

  /** The metadata of a collection says its total, how many items it keeps, and whether it is
      truncated. */
  lemma MetadataSays(name: Text, total: nat, retained: nat, truncated: bool)
    ensures var text := Metadata(name, total, retained, truncated);
            && Says(text, TOTAL, total) && Says(text, RETAINED, retained)
            && Shows(text, TRUNCATED + Bool(truncated) + QUOTE)
  {
    var text := Metadata(name, total, retained, truncated);
    Pieces();
    TailSplits();
    hide Decimal, Bool, Ascii, QUOTE, TOTAL, RETAINED, TRUNCATED, Says;
    var head, line := Ascii("\n## ") + name + Ascii("\n\n"), Ascii("\n");
    var third := TRUNCATED + Bool(truncated) + QUOTE;
    var second := RETAINED + Decimal(retained) + QUOTE;
    var first := TOTAL + Decimal(total) + QUOTE;
    assert text == head + first + (line + second + line + third + line);
    SaysNumber(text, head, TOTAL, total, line + second + line + third + line);
    assert text == (head + first + line) + second + (line + third + line);
    SaysNumber(text, head + first + line, RETAINED, retained, line + third + line);
    assert text == (head + first + line + second + line) + third + line;
    Middle(head + first + line + second + line, third, line);
  }

  lemma TailSplits()
    ensures Ascii("`\n") == QUOTE + Ascii("\n")
  {
  }

  // ---------------------------------------------------------------- contents

  lemma {:induction false} ConcatContains(parts: seq<Text>, k: nat)
    requires k < |parts|
    ensures Shows(Concat(parts), parts[k])
  {
    var init, last := parts[..|parts| - 1], parts[|parts| - 1];
    if k < |init| {
      ConcatContains(init, k);
      var i: nat :| OccursAt(Concat(init), init[k], i);
      OccursBefore(Concat(init), last, parts[k], i);
      assert OccursAt(Concat(parts), parts[k], i);
    } else {
      Middle(Concat(init), last, []);
      assert Concat(init) + last + [] == Concat(parts);
      assert OccursAt(Concat(parts), parts[k], |Concat(init)|);
    }
  }

  lemma OccursBefore(text: Text, more: Text, part: Text, i: nat)
    requires OccursAt(text, part, i)
    ensures OccursAt(text + more, part, i)
  {
    assert (text + more)[i..i + |part|] == text[i..i + |part|];
  }

  lemma OccursBehind(before: Text, text: Text, part: Text, i: nat)
    requires OccursAt(text, part, i)
    ensures OccursAt(before + text, part, |before| + i)
  {
    assert (before + text)[|before| + i..|before| + i + |part|] == text[i..i + |part|];
  }

  lemma SaysBefore(text: Text, more: Text, tag: Text, n: nat)
    requires Says(text, tag, n)
    ensures Says(text + more, tag, n)
  {
    var i, digits :| OccursAt(text, tag + digits + QUOTE, i) && AllDigits(digits) && FromDecimal(digits) == n;
    OccursBefore(text, more, tag + digits + QUOTE, i);
  }

  /** A kept collection says how many items it keeps and contains just the first ones. */
  lemma KeptSaysAndContains(
    name: Text, total: nat, sourceTruncated: bool, items: seq<Text>, retained: nat, k: nat)
    requires k < retained <= |items|
    ensures var text := Kept(name, total, sourceTruncated, items, retained);
            && Says(text, TOTAL, total) && Says(text, RETAINED, retained)
            && Shows(text, items[k])
  {
    var meta := Metadata(name, total, retained, sourceTruncated || retained < total);
    MetadataSays(name, total, retained, sourceTruncated || retained < total);
    hide Metadata, Concat;
    SaysBefore(meta, Concat(items[..retained]), TOTAL, total);
    SaysBefore(meta, Concat(items[..retained]), RETAINED, retained);
    ConcatContains(items[..retained], k);
    var i: nat :| OccursAt(Concat(items[..retained]), items[k], i);
    OccursBehind(meta, Concat(items[..retained]), items[k], i);
  }

  /** A complete collection contains every item and says that it keeps them all. */
  lemma CompleteCollectionContains(heading: Text, total: nat, sourceTruncated: bool, items: seq<Text>, k: nat)
    requires k < |items|
    ensures var text := Complete(Collection(heading, total, sourceTruncated, items));
            && Says(text, TOTAL, total) && Says(text, RETAINED, |items|)
            && Shows(text, items[k])
  {
    var meta := Metadata(heading, total, |items|, sourceTruncated);
    MetadataSays(heading, total, |items|, sourceTruncated);
    hide Metadata, Concat;
    SaysBefore(meta, Concat(items), TOTAL, total);
    SaysBefore(meta, Concat(items), RETAINED, |items|);
    ConcatContains(items, k);
    var i: nat :| OccursAt(Concat(items), items[k], i);
    OccursBehind(meta, Concat(items), items[k], i);
  }

  /** A complete document contains every block; a block of text is that text. */
  lemma {:induction false} CompleteDocumentContains(blocks: seq<Block>, k: nat)
    requires k < |blocks|
    ensures Shows(CompleteAll(blocks), Complete(blocks[k]))
    ensures !blocks[k].Collection? ==> Complete(blocks[k]) == blocks[k].text
  {
    hide Complete;
    var init, last := blocks[..|blocks| - 1], blocks[|blocks| - 1];
    if k < |init| {
      CompleteDocumentContains(init, k);
      var i: nat :| OccursAt(CompleteAll(init), Complete(init[k]), i);
      OccursBefore(CompleteAll(init), Complete(last), Complete(blocks[k]), i);
      assert OccursAt(CompleteAll(blocks), Complete(blocks[k]), i);
    } else {
      TextIsComplete(last);
      Middle(CompleteAll(init), Complete(last), []);
      assert CompleteAll(init) + Complete(last) + [] == CompleteAll(blocks);
      assert OccursAt(CompleteAll(blocks), Complete(blocks[k]), |CompleteAll(init)|);
    }
  }

  lemma TextIsComplete(b: Block)
    ensures !b.Collection? ==> Complete(b) == b.text
  {
  }

  /** The preamble of the catalog says how many schemas there are and how many follow. */
  lemma PreambleSays(version: Text, mediaType: Text, total: nat, retained: nat, truncated: bool)
    ensures var text := Preamble(version, mediaType, total, retained, truncated);
            && Says(text, Ascii("- Schemas: total `"), total) && Says(text, Ascii("retained `"), retained)
            && Shows(text, Ascii("truncated `") + Bool(truncated) + QUOTE)
  {
    var text := Preamble(version, mediaType, total, retained, truncated);
    PreamblePieces();
    TailSplits();
    var one, two, three := Ascii("- Schemas: total `"), Ascii("retained `"), Ascii("truncated `");
    var line, comma := Ascii("\n"), Ascii(", ");
    var head := Ascii("\n## Catalog\n\n- Schema version: ") + version + Ascii("\n- Media type: ") + mediaType + line;
    hide Decimal, Bool, Ascii, QUOTE, Says;
    var first, second, third :=
      one + Decimal(total) + QUOTE, two + Decimal(retained) + QUOTE, three + Bool(truncated) + QUOTE;
    assert text == head + first + (comma + second + comma + third + line);
    SaysNumber(text, head, one, total, comma + second + comma + third + line);
    assert text == (head + first + comma) + second + (comma + third + line);
    SaysNumber(text, head + first + comma, two, retained, comma + third + line);
    assert text == (head + first + comma + second + comma) + third + line;
    Middle(head + first + comma + second + comma, third, line);
  }

  lemma PreamblePieces()
    ensures Ascii("\n- Schemas: total `") == Ascii("\n") + Ascii("- Schemas: total `")
    ensures Ascii("`, retained `") == QUOTE + Ascii(", ") + Ascii("retained `")
    ensures Ascii("`, truncated `") == QUOTE + Ascii(", ") + Ascii("truncated `")
  {
  }

  /**
   The catalog's text is honest: it says the larger of the declared and the present number of schemas
   and how many follow, and calls itself complete exactly when all of them follow and the source did
   not say otherwise.
   */
  lemma CatalogIsHonest(c: Catalog, retained: nat)
    ensures var text, present := PreambleFor(c, retained), |c.schemas|;
            var total := if c.declaredTotal.Some? && c.declaredTotal.value > present
                         then c.declaredTotal.value else present;
            && Says(text, Ascii("- Schemas: total `"), total) && Says(text, Ascii("retained `"), retained)
            && Shows(text, Ascii("truncated `") + Bool(
                 || total > retained || c.declaredTruncated == Some(true)
                 || (c.declaredTruncated.None? && total > present)) + QUOTE)
  {
    PreambleSays(c.version, c.mediaType, Total(c), retained, SourceTruncated(c) || Total(c) > retained);
  }

  /** A kept collection calls itself truncated exactly when an item is missing or the source said so. */
  lemma CollectionIsHonest(name: Text, total: nat, sourceTruncated: bool, items: seq<Text>, retained: nat)
    requires retained <= |items|
    ensures Shows(Kept(name, total, sourceTruncated, items, retained),
                  TRUNCATED + Bool(sourceTruncated || retained < total) + QUOTE)
  {
    var truncated := sourceTruncated || retained < total;
    var meta, flag := Metadata(name, total, retained, truncated), TRUNCATED + Bool(truncated) + QUOTE;
    MetadataSays(name, total, retained, truncated);
    hide Metadata, Concat, Bool, TRUNCATED, QUOTE;
    var i: nat :| OccursAt(meta, flag, i);
    OccursBefore(meta, Concat(items[..retained]), flag, i);
  }
}
