/**
 Fitting Markdown into a byte budget. The printed metadata of a collection or catalog depends on
 how much of it is retained, so its own length moves while the greedy loops run.
 */
module MarkdownFitting {
  import opened Basics

  const TRUNCATION_NOTICE: Text := Ascii(
    "\n## Truncation\n\nAdditional result content was omitted by the effective MCP response-byte limit.\n")

  function Concat(parts: seq<Text>): Text {
    if parts == [] then [] else Concat(parts[..|parts| - 1]) + parts[|parts| - 1]
  }

  predicate OccursAt(value: Text, part: Text, i: nat) {
    i + |part| <= |value| && value[i..i + |part|] == part
  }

  // ---------------------------------------------------------------- printed numbers

  function Decimal(n: nat): (digits: Text)
    ensures |digits| > 0
  {
    if n < 10 then [48 + n] else Decimal(n / 10) + [48 + n % 10]
  }

  function Bool(b: bool): Text {
    if b then Ascii("true") else Ascii("false")
  }

  lemma {:induction false} DecimalGrows(a: nat, b: nat)
    requires a <= b
    ensures |Decimal(a)| <= |Decimal(b)|
  {
    if b >= 10 && a >= 10 {
      DecimalGrows(a / 10, b / 10);
    }
  }

  /** Printed numbers can be read back, so a printed count says which count it is. */
  lemma {:induction false} DecimalIsInjective(a: nat, b: nat)
    requires Decimal(a) == Decimal(b)
    ensures a == b
  {
    var x, y := Decimal(a), Decimal(b);
    assert x[|x| - 1] == 48 + a % 10 && y[|y| - 1] == 48 + b % 10;
    if a >= 10 && b >= 10 {
      assert x[..|x| - 1] == Decimal(a / 10) && y[..|y| - 1] == Decimal(b / 10);
      DecimalIsInjective(a / 10, b / 10);
    } else {
      assert |x| == 1 && |y| == 1;
    }
  }

  // ---------------------------------------------------------------- one collection

  /** Heading, counts and the truncation flag of a collection. */
  function Metadata(name: Text, total: nat, retained: nat, truncated: bool): Text {
    Ascii("\n## ") + name + Ascii("\n\n- Total: `") + Decimal(total)
    + Ascii("`\n- Retained: `") + Decimal(retained)
    + Ascii("`\n- Truncated: `") + Bool(truncated) + Ascii("`\n")
  }

  /** A collection that keeps the first `retained` items and says so. */
  function Kept(name: Text, total: nat, sourceTruncated: bool, items: seq<Text>, retained: nat): Text
    requires retained <= |items|
  {
    Metadata(name, total, retained, sourceTruncated || retained < total) + Concat(items[..retained])
  }

  lemma MetadataLength(name: Text, total: nat, retained: nat, truncated: bool)
    ensures |Metadata(name, total, retained, truncated)|
            == 54 + |name| + |Decimal(total)| + |Decimal(retained)| - (if truncated then 1 else 0)
  {
  }

  /** Keeping one item more never shortens the block: digits only grow and the flag turns from
      `true` to the longer `false`. */
  lemma OneMoreIsLonger(name: Text, total: nat, sourceTruncated: bool, items: seq<Text>, k: nat)
    requires k < |items|
    ensures |Kept(name, total, sourceTruncated, items, k)| + |items[k]|
            <= |Kept(name, total, sourceTruncated, items, k + 1)|
    ensures |Concat(items[..k + 1])| == |Concat(items[..k])| + |items[k]|
  {
    hide Metadata, Decimal;
    DecimalGrows(k, k + 1);
    MetadataLength(name, total, k, sourceTruncated || k < total);
    MetadataLength(name, total, k + 1, sourceTruncated || k + 1 < total);
    assert items[..k + 1][..k] == items[..k];
  }

  lemma {:induction false} LongerPrefixIsLonger(
    name: Text, total: nat, sourceTruncated: bool, items: seq<Text>, j: nat, k: nat)
    requires j <= k <= |items|
    ensures |Kept(name, total, sourceTruncated, items, j)|
            <= |Kept(name, total, sourceTruncated, items, k)|
    decreases k
  {
    if j < k {
      LongerPrefixIsLonger(name, total, sourceTruncated, items, j, k - 1);
      OneMoreIsLonger(name, total, sourceTruncated, items, k - 1);
    }
  }

  predicate Fits(name: Text, total: nat, sourceTruncated: bool, items: seq<Text>, k: nat, maximum: nat)
    requires k <= |items|
  {
    |Kept(name, total, sourceTruncated, items, k)| <= maximum
  }

  /** The longest item prefix whose block fits. */
  ghost predicate Longest(
    name: Text, total: nat, sourceTruncated: bool, items: seq<Text>, maximum: nat, k: nat)
  {
    && k <= |items| && Fits(name, total, sourceTruncated, items, k, maximum)
    && forall j :: k < j <= |items| ==> !Fits(name, total, sourceTruncated, items, j, maximum)
  }

  /**
   `bounded_collection_block`: nothing if even the empty block is too long, otherwise the block
   with the longest fitting prefix and its true retained count.
   */
  method BoundedCollection(
    name: Text, total: nat, sourceTruncated: bool, items: seq<Text>, maximum: nat)
    returns (r: Option<Text>, ghost k: nat)
    ensures r.None? <==> forall j :: 0 <= j <= |items| ==>
              !Fits(name, total, sourceTruncated, items, j, maximum)
    ensures r.Some? ==>
      && Longest(name, total, sourceTruncated, items, maximum, k)
      && r.value == Kept(name, total, sourceTruncated, items, k)
      && |r.value| <= maximum
  {
    hide Metadata, Decimal;
    var retained, itemBytes := 0, 0;
    while retained < |items|
      invariant 0 <= retained <= |items| && itemBytes == |Concat(items[..retained])|
      invariant retained > 0 ==> Fits(name, total, sourceTruncated, items, retained, maximum)
      decreases |items| - retained
    {
      var candidate := retained + 1;
      var metadata := Metadata(name, total, candidate, sourceTruncated || candidate < total);
      OneMoreIsLonger(name, total, sourceTruncated, items, retained);
      if |metadata| + itemBytes + |items[retained]| > maximum {
        break;
      }
      itemBytes := itemBytes + |items[retained]|;
      retained := candidate;
    }
    k := retained;
    forall j | retained < j <= |items|
      ensures !Fits(name, total, sourceTruncated, items, j, maximum)
    {
      LongerPrefixIsLonger(name, total, sourceTruncated, items, retained + 1, j);
    }
    forall j | 0 <= j <= retained
      ensures |Kept(name, total, sourceTruncated, items, j)|
              <= |Kept(name, total, sourceTruncated, items, retained)|
    {
      LongerPrefixIsLonger(name, total, sourceTruncated, items, j, retained);
    }
    if retained == 0 {
      forall j | 0 <= j <= |items|
        ensures |Kept(name, total, sourceTruncated, items, 0)|
                <= |Kept(name, total, sourceTruncated, items, j)|
      {
        LongerPrefixIsLonger(name, total, sourceTruncated, items, 0, j);
      }
    }
    var output := Metadata(name, total, retained, sourceTruncated || retained < total);
    if |output| + itemBytes > maximum {
      return None, k;
    }
    assert Fits(name, total, sourceTruncated, items, retained, maximum);
    return Some(output + Concat(items[..retained])), k;
  }

  // ---------------------------------------------------------------- a document

  datatype Block =
    | Control(text: Text)
    | Atomic(text: Text)
    | Collection(heading: Text, total: nat, sourceTruncated: bool, items: seq<Text>)

  function Complete(b: Block): Text {
    match b
    case Control(text) => text
    case Atomic(text) => text
    case Collection(heading, total, sourceTruncated, items) =>
      Metadata(heading, total, |items|, sourceTruncated) + Concat(items)
  }

  function CompleteAll(blocks: seq<Block>): Text {
    if blocks == [] then [] else CompleteAll(blocks[..|blocks| - 1]) + Complete(blocks[|blocks| - 1])
  }

  /** One block appended to a truncated document that may use `available` bytes: an atomic block
      wholly or not at all, a collection with its longest prefix that fits, a control block never. */
  ghost predicate Appended(before: Text, b: Block, available: nat, after: Text) {
    match b
    case Control(_) => after == before
    case Atomic(text) => after == if |before| + |text| <= available then before + text else before
    case Collection(heading, total, sourceTruncated, items) =>
      var room := if |before| <= available then available - |before| else 0;
      if exists k :: Longest(heading, total, sourceTruncated, items, room, k) then
        exists k :: Longest(heading, total, sourceTruncated, items, room, k)
                    && after == before + Kept(heading, total, sourceTruncated, items, k)
      else after == before
  }

  /** The texts a truncated document goes through, one block at a time. */
  ghost predicate Truncation(start: Text, blocks: seq<Block>, available: nat, stages: seq<Text>) {
    && |stages| == |blocks| + 1 && stages[0] == start
    && forall i :: 0 <= i < |blocks| ==> Appended(stages[i], blocks[i], available, stages[i + 1])
  }

  method AppendBlock(before: Text, b: Block, available: nat) returns (after: Text)
    requires |before| <= available
    ensures Appended(before, b, available, after) && |after| <= available
  {
    match b {
      case Control(_) => after := before;
      case Atomic(text) =>
        after := if |before| + |text| <= available then before + text else before;
      case Collection(heading, total, sourceTruncated, items) =>
        var room := available - |before|;
        var value, k := BoundedCollection(heading, total, sourceTruncated, items, room);
        if value.Some? {
          assert Longest(heading, total, sourceTruncated, items, room, k);
          after := before + value.value;
        } else {
          assert !exists j :: Longest(heading, total, sourceTruncated, items, room, j);
          after := before;
        }
    }
  }

  /**
   `fit_document`: the complete text if it fits; otherwise a truncated one that never exceeds the
   maximum and ends with the notice whenever the notice itself fits.
   */
  method FitDocument(blocks: seq<Block>, maximum: nat, compact: Text)
    returns (output: Text, ghost stages: seq<Text>)
    ensures |output| <= maximum
    ensures |CompleteAll(blocks)| <= maximum ==> output == CompleteAll(blocks)
    ensures |CompleteAll(blocks)| > maximum ==>
      var available := if maximum < |TRUNCATION_NOTICE| then 0 else maximum - |TRUNCATION_NOTICE|;
      var start := if |compact| <= available then compact else [];
      && Truncation(start, blocks, available, stages)
      && output == stages[|blocks|] + (if |TRUNCATION_NOTICE| <= maximum then TRUNCATION_NOTICE else [])
  {
    hide Complete, Appended, TRUNCATION_NOTICE;
    stages := [];
    var complete := CompleteAll(blocks);
    if |complete| <= maximum {
      return complete, [];
    }
    var available := if maximum < |TRUNCATION_NOTICE| then 0 else maximum - |TRUNCATION_NOTICE|;
    output := if |compact| <= available then compact else [];
    stages := [output];
    var i := 0;
    while i < |blocks|
      invariant 0 <= i <= |blocks| && |output| <= available
      invariant |stages| == i + 1 && stages[i] == output
      invariant stages[0] == if |compact| <= available then compact else []
      invariant forall m :: 0 <= m < i ==> Appended(stages[m], blocks[m], available, stages[m + 1])
    {
      var next := AppendBlock(output, blocks[i], available);
      output := next;
      stages := stages + [next];
      i := i + 1;
    }
    if |output| + |TRUNCATION_NOTICE| <= maximum {
      output := output + TRUNCATION_NOTICE;
    } else {
      assert output + [] == output;
    }
  }

  // ---------------------------------------------------------------- whole blocks, greedily

  /** The blocks at some positions of a list, in order. */
  function Pick(blocks: seq<Text>, positions: seq<nat>): seq<Text>
    requires forall i :: 0 <= i < |positions| ==> positions[i] < |blocks|
  {
    seq(|positions|, i requires 0 <= i < |positions| => blocks[positions[i]])
  }

  ghost predicate Increasing(positions: seq<nat>, bound: nat) {
    && (forall i :: 0 <= i < |positions| ==> positions[i] < bound)
    && (forall i, j :: 0 <= i < j < |positions| ==> positions[i] < positions[j])
  }

  /** The chosen positions before `i`. */
  ghost function Below(kept: seq<nat>, i: nat): (r: seq<nat>)
    ensures r <= kept
  {
    if kept == [] || kept[|kept| - 1] < i then kept else Below(kept[..|kept| - 1], i)
  }

  /** A block is chosen exactly when it fits behind the bytes used and the blocks chosen before it. */
  ghost predicate Greedy(blocks: seq<Text>, used: nat, available: nat, kept: seq<nat>) {
    && Increasing(kept, |blocks|)
    && forall i :: 0 <= i < |blocks| ==>
         (i in kept <==>
            used + |Concat(Pick(blocks, Below(kept, i)))| + |blocks[i]| <= available)
  }

  lemma PickOneMore(blocks: seq<Text>, kept: seq<nat>, i: nat)
    requires Increasing(kept, i) && i < |blocks|
    ensures Increasing(kept + [i], i + 1) && Increasing(kept, |blocks|) && Increasing(kept + [i], |blocks|)
    ensures Concat(Pick(blocks, kept + [i])) == Concat(Pick(blocks, kept)) + blocks[i]
  {
    var more := Pick(blocks, kept + [i]);
    assert more[..|kept|] == Pick(blocks, kept);
  }

  lemma BelowAfter(kept: seq<nat>, i: nat)
    requires Increasing(kept, i)
    ensures Below(kept, i) == kept
    ensures forall m :: 0 <= m <= i ==> Below(kept + [i], m) == Below(kept, m)
  {
    assert (kept + [i])[..|kept|] == kept;
  }

  lemma NothingPicked(blocks: seq<Text>)
    ensures Concat(Pick(blocks, [])) == []
  {
  }

  /** Appending whole blocks while they fit; later, shorter blocks may fit where one did not. */
  method AppendWhole(start: Text, blocks: seq<Text>, available: nat)
    returns (output: Text, ghost kept: seq<nat>)
    ensures Greedy(blocks, |start|, available, kept)
    ensures output == start + Concat(Pick(blocks, kept))
    ensures |output| <= available || output == start
  {
    hide Concat, Below, Pick;
    output, kept := start, [];
    NothingPicked(blocks);
    assert start + [] == start;
    var i := 0;
    while i < |blocks|
      invariant 0 <= i <= |blocks| && Increasing(kept, i) && Increasing(kept, |blocks|)
      invariant output == start + Concat(Pick(blocks, kept))
      invariant |output| <= available || output == start
      invariant forall m :: 0 <= m < i ==>
                  (m in kept <==>
                     |start| + |Concat(Pick(blocks, Below(kept, m)))| + |blocks[m]| <= available)
    {
      PickOneMore(blocks, kept, i);
      BelowAfter(kept, i);
      if |output| + |blocks[i]| <= available {
        output := output + blocks[i];
        kept := kept + [i];
      }
      i := i + 1;
    }
  }

  /**
   `fit_atomic_blocks`: the complete text if it fits; otherwise whole blocks chosen greedily,
   within the bytes the notice leaves, and the notice whenever it fits.
   */
  method FitAtomicBlocks(texts: seq<Text>, maximum: nat) returns (output: Text, ghost kept: seq<nat>)
    ensures |output| <= maximum
    ensures |Concat(texts)| <= maximum ==> output == Concat(texts)
    ensures |Concat(texts)| > maximum ==>
      var available := if maximum < |TRUNCATION_NOTICE| then 0 else maximum - |TRUNCATION_NOTICE|;
      && Greedy(texts, 0, available, kept)
      && output == Concat(Pick(texts, kept))
                   + (if |TRUNCATION_NOTICE| <= maximum then TRUNCATION_NOTICE else [])
  {
    hide TRUNCATION_NOTICE, Concat, Greedy, Pick;
    kept := [];
    var complete := Concat(texts);
    if |complete| <= maximum {
      return complete, [];
    }
    var available := if maximum < |TRUNCATION_NOTICE| then 0 else maximum - |TRUNCATION_NOTICE|;
    output, kept := AppendWhole([], texts, available);
    assert Increasing(kept, |texts|) by { GreedyIncreases(texts, 0, available, kept); }
    assert output == Concat(Pick(texts, kept));
    if |output| + |TRUNCATION_NOTICE| <= maximum {
      output := output + TRUNCATION_NOTICE;
    } else {
      assert output + [] == output;
    }
  }

  lemma GreedyIncreases(blocks: seq<Text>, used: nat, available: nat, kept: seq<nat>)
    requires Greedy(blocks, used, available, kept)
    ensures Increasing(kept, |blocks|)
  {
  }
}
