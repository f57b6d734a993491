/**
 What extraction keeps: which extractors there are, when a batch is stored, what it holds, and which
 notes come with it. Stated on the parsed documents, field by field.
 */
module ExtractionContents {
  import opened Basics
  import opened Artifacts
  import opened Extractors
  import opened FocusedExtraction

  // ---------------------------------------------------------------- the extractors by name

  /** The two letters after the common prefix tell the families of names apart. */
  function Letters(x: Text): (int, int) {
    if |x| > 19 then (x[18], x[19]) else (0, 0)
  }

  predicate StartsWith(x: Text, a: char, b: char) {
    Letters(x) == (a as int, b as int)
  }

  lemma SourceLetters()
    ensures forall x <- SOURCE_EXTRACTORS :: StartsWith(x, 's', 'o')
    ensures StartsWith(Ascii("code-system-graph.packages"), 'p', 'a')
  {
  }

  lemma ScanLetters()
    ensures StartsWith(Ascii("code-system-graph.graphql.document"), 'g', 'r')
    ensures StartsWith(Ascii("code-system-graph.graphql.persisted"), 'g', 'r')
    ensures StartsWith(GRAPHQL_SOURCE, 'g', 'r')
    ensures StartsWith(Ascii("code-system-graph.events.asyncapi"), 'e', 'v')
    ensures StartsWith(EVENTS_SOURCE, 'e', 'v')
    ensures StartsWith(Ascii("code-system-graph.protobuf"), 'p', 'r')
    ensures StartsWith(PROTOBUF_GENERATED, 'p', 'r')
    ensures StartsWith(DATA_ARTIFACT, 'd', 'a') && StartsWith(DATA_SOURCE, 'd', 'a')
  {
  }

  lemma OtherLetters()
    ensures forall x <- INFRASTRUCTURE_EXTRACTORS :: StartsWith(x, 'i', 'n')
    ensures forall x <- DOCUMENTATION_EXTRACTORS :: StartsWith(x, 'd', 'o')
    ensures StartsWith(Ascii("code-system-graph.config.safe"), 'c', 'o')
    ensures StartsWith(Ascii("code-system-graph.http.generated-client"), 'h', 't')
  {
  }

  /** Every extractor name and the kind of its documents. */
  lemma ExtractorKinds()
    ensures forall x <- SOURCE_EXTRACTORS :: KindOf(x) == SourceKind
    ensures KindOf(Ascii("code-system-graph.packages")) == PackageKind
    ensures KindOf(Ascii("code-system-graph.graphql.document")) == GraphqlKind
    ensures KindOf(Ascii("code-system-graph.graphql.persisted")) == GraphqlKind
    ensures KindOf(GRAPHQL_SOURCE) == GraphqlKind
    ensures KindOf(Ascii("code-system-graph.events.asyncapi")) == EventKind
    ensures KindOf(EVENTS_SOURCE) == EventKind
    ensures KindOf(Ascii("code-system-graph.protobuf")) == ProtobufKind
    ensures KindOf(PROTOBUF_GENERATED) == ProtobufKind
    ensures KindOf(DATA_ARTIFACT) == DataKind && KindOf(DATA_SOURCE) == DataKind
    ensures forall x <- INFRASTRUCTURE_EXTRACTORS :: KindOf(x) == InfrastructureKind
    ensures forall x <- DOCUMENTATION_EXTRACTORS :: KindOf(x) == DocumentationKind
    ensures KindOf(Ascii("code-system-graph.config.safe")) == ConfigKind
    ensures KindOf(Ascii("code-system-graph.http.generated-client")) == GeneratedClientKind
  {
    SourceLetters();
    ScanLetters();
    OtherLetters();
    hide Ascii, SOURCE_EXTRACTORS, INFRASTRUCTURE_EXTRACTORS, DOCUMENTATION_EXTRACTORS, Letters;
  }

  /** The focused extractors are exactly these. */
  lemma FocusedExtractors(x: Text)
    ensures IsFocused(x) <==>
              || x in SOURCE_EXTRACTORS || x in INFRASTRUCTURE_EXTRACTORS || x in DOCUMENTATION_EXTRACTORS
              || x in {Ascii("code-system-graph.packages"),
                       Ascii("code-system-graph.graphql.document"),
                       Ascii("code-system-graph.graphql.persisted"), GRAPHQL_SOURCE,
                       Ascii("code-system-graph.events.asyncapi"), EVENTS_SOURCE,
                       Ascii("code-system-graph.protobuf"), PROTOBUF_GENERATED,
                       DATA_ARTIFACT, DATA_SOURCE,
                       Ascii("code-system-graph.config.safe"),
                       Ascii("code-system-graph.http.generated-client")}
  {
    ExtractorKinds();
    hide Ascii, SOURCE_EXTRACTORS, INFRASTRUCTURE_EXTRACTORS, DOCUMENTATION_EXTRACTORS;
  }

  // ---------------------------------------------------------------- what documents hold

  /** The document tells something: any list, option or flag of it that is not empty. */
  predicate Holds(d: Document) {
    match d
    case Graphql(types, operations, fragments, persistedOperations, resolvers, federation, warnings, complete) =>
      |types| + |operations| + |fragments| + |persistedOperations| + |resolvers| + |federation| + |warnings| > 0
      || !complete
    case Event(observations, warnings, specification, incomplete) =>
      |observations| + |warnings| > 0 || specification.Some? || incomplete
    case ProtobufFile(_) => true
    case ProtobufGenerated(markers) => |markers| > 0
    case Data(tables, migration, accesses, frameworks, references, owners, warnings, incomplete) =>
      |tables| + |accesses| + |frameworks| + |references| + |owners| + |warnings| > 0
      || migration.Some? || incomplete
    case Plain(_) => true
  }

  /** The document type of a kind; only the first four kinds have source scans. */
  predicate OfKind(kind: Kind, d: Document) {
    match kind
    case GraphqlKind => d.Graphql?
    case EventKind => d.Event?
    case ProtobufKind => d.ProtobufFile? || d.ProtobufGenerated?
    case DataKind => d.Data?
    case _ => d.Plain?
  }

  predicate IsSourceScan(extractor: Text) {
    extractor in {GRAPHQL_SOURCE, EVENTS_SOURCE, PROTOBUF_GENERATED, DATA_SOURCE}
  }

  lemma FactFreeHoldsNothing(fp: Fingerprint, documents: seq<Document>)
    ensures FactFree(Output(KindOf(fp.extractor), fp, documents)) <==>
              IsSourceScan(fp.extractor)
              && forall d <- documents :: OfKind(KindOf(fp.extractor), d) && !Holds(d)
  {
    SourceScansOnly(fp);
    SourceScanKinds();
    ScanLetters();
    hide Ascii, KindOf, Letters;
  }

  // ---------------------------------------------------------------- what extraction keeps

  /** Extraction succeeds exactly when the parser does and both limits hold; else the error says
      which of them failed first. */
  lemma ExtractionSucceedsWithinLimits(w: World, budget: Text, content: Text, root: Text, fp: Fingerprint)
    ensures var parsed := w.parse(budget, content, root, fp.path, fp.extractor);
            var r := ExtractArtifact(w, budget, content, root, fp);
            && (r.Ok? <==> parsed.Ok? && |parsed.value| <= w.maxDocuments(budget)
                           && |w.encode(parsed.value)| <= w.maxPayload(budget))
            && (parsed.Err? ==> r == Err(ParseError(fp, parsed.error)))
            && (parsed.Ok? && |parsed.value| > w.maxDocuments(budget) ==> r == Err(ObservationLimit(fp)))
            && ((parsed.Ok? && |parsed.value| <= w.maxDocuments(budget)
                 && |w.encode(parsed.value)| > w.maxPayload(budget)) ==> r == Err(OutputLimit(fp)))
  {
    hide KindOf, FactFree;
  }

  /**
   Extraction keeps what the documents hold. If some parsed document holds anything, the outcome has
   exactly the parsed documents, and so does the stored batch. The output is missing if and only if
   a source scan found nothing at all, and only then is the batch stored empty.
   */
  lemma ExtractionKeepsWhatIsHeld(w: World, budget: Text, content: Text, root: Text, fp: Fingerprint)
    requires CodecInverts(w) && ExtractArtifact(w, budget, content, root, fp).Ok?
    ensures var documents := w.parse(budget, content, root, fp.path, fp.extractor).value;
            var o := ExtractArtifact(w, budget, content, root, fp).value;
            var batch := o.slot.batch;
            && (o.output.None? <==>
                  IsSourceScan(fp.extractor)
                  && forall d <- documents :: OfKind(KindOf(fp.extractor), d) && !Holds(d))
            && ((exists d <- documents :: Holds(d)) ==> o.output.Some?)
            && (o.output.Some? ==>
                  && o.output == Some(Output(KindOf(fp.extractor), fp, documents))
                  && batch.outputCount == |documents|
                  && w.decode(KindOf(fp.extractor), batch.payload) == Some(documents)
                  && LoadBatch(w, budget, batch) == Ok(Output(KindOf(fp.extractor), fp, documents)))
            && (o.output.None? ==> batch.outputCount == 0 && batch.payload == w.encode([]))
  {
    var documents := w.parse(budget, content, root, fp.path, fp.extractor).value;
    var output := Output(KindOf(fp.extractor), fp, documents);
    FactFreeHoldsNothing(fp, documents);
    StoreThenLoad(w, budget, output, w.lossy(content));
    hide KindOf, FactFree, Holds, OfKind, IsSourceScan, LoadBatch;
    assert w.decode(output.kind, w.encode(documents)) == Some(documents);
  }

  /** The batch records whether the content was lossy; the notes are one for that, and one for every
      incomplete document of the data-artifact extractor, and no others. */
  lemma NotesAreExact(w: World, budget: Text, content: Text, root: Text, fp: Fingerprint)
    requires ExtractArtifact(w, budget, content, root, fp).Ok?
    ensures var documents := w.parse(budget, content, root, fp.path, fp.extractor).value;
            var o := ExtractArtifact(w, budget, content, root, fp).value;
            && o.slot.batch.lossy == w.lossy(content)
            && forall n :: n in o.notes <==>
                 || (w.lossy(content) && n == LossyNote(fp.path.display))
                 || (fp.extractor == DATA_ARTIFACT && exists d <- documents ::
                       d.Data? && d.incomplete && n == IncompleteNote(fp.path.display, d.warnings))
  {
    hide KindOf, FactFree;
    IncompleteNotesAreExact(fp, w.parse(budget, content, root, fp.path, fp.extractor).value);
  }

  lemma {:induction false} IncompleteNotesAreExact(fp: Fingerprint, documents: seq<Document>)
    ensures forall n :: n in IncompleteNotes(fp, documents) <==>
              fp.extractor == DATA_ARTIFACT
              && exists d <- documents :: d.Data? && d.incomplete && n == IncompleteNote(fp.path.display, d.warnings)
  {
    if documents != [] && fp.extractor == DATA_ARTIFACT {
      IncompleteNotesAreExact(fp, documents[1..]);
      assert documents == [documents[0]] + documents[1..];
    }
  }

  /** Only a batch of the current contract, hash and budget is used again. */
  lemma OtherContractsAreNotReused(scan: Scan, fp: Fingerprint)
    requires Reusable(scan, fp).Some?
    ensures var b := Reusable(scan, fp).value.0;
            && b.version == Ascii("1.2.1") && b.budget == scan.budget
            && b.source.contentHash == fp.contentHash && KeyOf(b.source) == KeyOf(fp)
  {
    hide Reusable;
  }
}
