/** Extractor kinds, typed documents, and the codec around persisted batches. */
module Extractors {
  import opened Basics
  import opened Artifacts

  const CONTRACT_VERSION: Text := Ascii("1.2.1")
  /** The two bytes `[]`. */
  const EMPTY_PAYLOAD: Text := [91, 93]

  const GRAPHQL_SOURCE := Ascii("code-system-graph.graphql.source")
  const EVENTS_SOURCE := Ascii("code-system-graph.events.source")
  const PROTOBUF_GENERATED := Ascii("code-system-graph.protobuf.generated")
  const DATA_SOURCE := Ascii("code-system-graph.data.source")
  const DATA_ARTIFACT := Ascii("code-system-graph.data.artifact")

  datatype Kind =
    | SourceKind | PackageKind | GraphqlKind | EventKind | ProtobufKind | DataKind
    | InfrastructureKind | DocumentationKind | ConfigKind | GeneratedClientKind

  const SOURCE_EXTRACTORS: set<Text> := {
    Ascii("code-system-graph.source.javascript"), Ascii("code-system-graph.source.typescript"),
    Ascii("code-system-graph.source.rust"), Ascii("code-system-graph.source.python"),
    Ascii("code-system-graph.source.go"), Ascii("code-system-graph.source.java")}

  const INFRASTRUCTURE_EXTRACTORS: set<Text> := {
    Ascii("code-system-graph.infrastructure.compose"),
    Ascii("code-system-graph.infrastructure.kubernetes"),
    Ascii("code-system-graph.infrastructure.helm"),
    Ascii("code-system-graph.infrastructure.terraform")}

  const DOCUMENTATION_EXTRACTORS: set<Text> := {
    Ascii("code-system-graph.documents.markdown"),
    Ascii("code-system-graph.documents.codeowners"),
    Ascii("code-system-graph.documents.catalog")}

  /** Dispatch shared by extraction and decoding; the last arm takes every other name. */
  function KindOf(extractor: Text): Kind {
    if extractor in SOURCE_EXTRACTORS then SourceKind
    else if extractor == Ascii("code-system-graph.packages") then PackageKind
    else if extractor in {Ascii("code-system-graph.graphql.document"),
                          Ascii("code-system-graph.graphql.persisted"), GRAPHQL_SOURCE} then GraphqlKind
    else if extractor in {Ascii("code-system-graph.events.asyncapi"), EVENTS_SOURCE} then EventKind
    else if extractor in {Ascii("code-system-graph.protobuf"), PROTOBUF_GENERATED} then ProtobufKind
    else if extractor in {DATA_ARTIFACT, DATA_SOURCE} then DataKind
    else if extractor in INFRASTRUCTURE_EXTRACTORS then InfrastructureKind
    else if extractor in DOCUMENTATION_EXTRACTORS then DocumentationKind
    else if extractor == Ascii("code-system-graph.config.safe") then ConfigKind
    else GeneratedClientKind
  }

  predicate IsFocused(extractor: Text) {
    KindOf(extractor) != GeneratedClientKind
    || extractor == Ascii("code-system-graph.http.generated-client")
  }

  function Focused(fps: seq<Fingerprint>): seq<Fingerprint> {
    if fps == [] then [] else
      var last := fps[|fps| - 1];
      Focused(fps[..|fps| - 1]) + (if IsFocused(last.extractor) then [last] else [])
  }

  datatype Document =
    | Graphql(types: seq<Text>, operations: seq<Text>, fragments: seq<Text>,
              persistedOperations: seq<Text>, resolvers: seq<Text>, federation: seq<Text>,
              warnings: seq<Text>, complete: bool)
    | Event(observations: seq<Text>, warnings: seq<Text>, specification: Option<Text>,
            incomplete: bool)
    | ProtobufFile(body: Text)
    | ProtobufGenerated(markers: seq<Text>)
    | Data(tables: seq<Text>, migration: Option<Text>, accesses: seq<Text>, frameworks: seq<Text>,
           references: seq<Text>, owners: seq<Text>, warnings: seq<Text>, incomplete: bool)
    | Plain(body: Text)

  datatype Output = Output(kind: Kind, source: Fingerprint, documents: seq<Document>)

  /** Whether a source-scan output holds no facts and is persisted without documents. */
  predicate FactFree(o: Output) {
    match o.kind
    case GraphqlKind =>
      o.source.extractor == GRAPHQL_SOURCE &&
      forall d <- o.documents :: d.Graphql? && d.types == [] && d.operations == []
        && d.fragments == [] && d.persistedOperations == [] && d.resolvers == []
        && d.federation == [] && d.warnings == [] && d.complete
    case EventKind =>
      o.source.extractor == EVENTS_SOURCE &&
      forall d <- o.documents :: d.Event? && d.observations == [] && d.warnings == []
        && d.specification.None? && !d.incomplete
    case ProtobufKind =>
      o.source.extractor == PROTOBUF_GENERATED &&
      forall d <- o.documents :: d.ProtobufGenerated? && d.markers == []
    case DataKind =>
      o.source.extractor == DATA_SOURCE &&
      forall d <- o.documents :: d.Data? && d.tables == [] && d.migration.None?
        && d.accesses == [] && d.frameworks == [] && d.references == [] && d.owners == []
        && d.warnings == [] && !d.incomplete
    case _ => false
  }

  datatype Error =
    | ParseError(source: Fingerprint, message: Text)
    | ReadError(path: NativePath, extractor: Text)
    | ObservationLimit(source: Fingerprint)
    | OutputLimit(source: Fingerprint)
    | InvalidPayload(source: Fingerprint)
    | CountMismatch(stored: nat, decoded: nat)
    | AliasMissing(repo: Text)
    | ClaimedTwice

  /**
   What the scan cannot see inside: the content behind a content hash, whether content is lossy
   UTF-8, whether a Rust source mentions a database crate, the parsers, the JSON codec, and the
   budgets behind a budget fingerprint. A parser sees budget, content, crate root, path and
   extractor name.
   */
  datatype World = World(
    contentOf: Text -> Text,
    lossy: Text -> bool,
    needsRoot: (Text, NativePath) -> bool,
    parse: (Text, Text, Text, NativePath, Text) -> Result<seq<Document>, Text>,
    encode: seq<Document> -> Text,
    decode: (Kind, Text) -> Option<seq<Document>>,
    maxDocuments: Text -> nat,
    maxPayload: Text -> nat)

  /** The codec inverts itself and writes the empty list as `[]`. */
  ghost predicate CodecInverts(w: World) {
    && w.encode([]) == EMPTY_PAYLOAD
    && forall kind, documents :: w.decode(kind, w.encode(documents)) == Some(documents)
  }

  /** `store_extractor_batch`: both limits are enforced before a batch exists. */
  function StoreBatch(w: World, budget: Text, o: Output, lossy: bool): Result<StoredBatch, Error> {
    if |o.documents| > w.maxDocuments(budget) then Err(ObservationLimit(o.source))
    else
      var payload := w.encode(o.documents);
      if |payload| > w.maxPayload(budget) then Err(OutputLimit(o.source))
      else Ok(StoredBatch(o.source, CONTRACT_VERSION, budget, lossy, |o.documents|, payload))
  }

  /** `load_extractor_batch_with_budgets`: count, bytes, decode, count again. */
  function LoadBatch(w: World, budget: Text, stored: StoredBatch): Result<Output, Error> {
    if stored.outputCount > w.maxDocuments(budget) then Err(ObservationLimit(stored.source))
    else if |stored.payload| > w.maxPayload(budget) then Err(OutputLimit(stored.source))
    else
      var kind := KindOf(stored.source.extractor);
      match w.decode(kind, stored.payload)
      case None => Err(InvalidPayload(stored.source))
      case Some(documents) =>
        if stored.outputCount != |documents| then Err(CountMismatch(stored.outputCount, |documents|))
        else Ok(Output(kind, stored.source, documents))
  }

  /** Whatever was stored under a budget is loaded back unchanged under that budget. */
  lemma StoreThenLoad(w: World, budget: Text, o: Output, lossy: bool)
    requires CodecInverts(w) && o.kind == KindOf(o.source.extractor)
    requires StoreBatch(w, budget, o, lossy).Ok?
    ensures LoadBatch(w, budget, StoreBatch(w, budget, o, lossy).value) == Ok(o)
  {
    assert w.decode(o.kind, w.encode(o.documents)) == Some(o.documents);
  }

  /** Only the four source scans can produce a fact-free output. */
  lemma SourceScansOnly(fp: Fingerprint)
    ensures forall documents :: FactFree(Output(KindOf(fp.extractor), fp, documents)) ==>
              fp.extractor in {GRAPHQL_SOURCE, EVENTS_SOURCE, PROTOBUF_GENERATED, DATA_SOURCE}
    ensures fp.extractor in {GRAPHQL_SOURCE, EVENTS_SOURCE, PROTOBUF_GENERATED, DATA_SOURCE} ==>
              FactFree(Output(KindOf(fp.extractor), fp, []))
  {
    SourceScanKinds();
  }

  lemma SourceScanKinds()
    ensures KindOf(GRAPHQL_SOURCE) == GraphqlKind && KindOf(EVENTS_SOURCE) == EventKind
    ensures KindOf(PROTOBUF_GENERATED) == ProtobufKind && KindOf(DATA_SOURCE) == DataKind
  {
    SourceNames();
    OtherNames();
    hide Ascii, SOURCE_EXTRACTORS, INFRASTRUCTURE_EXTRACTORS, DOCUMENTATION_EXTRACTORS;
  }

  /** The letter after the common prefix tells the families of extractor names apart. */
  lemma SourceNames()
    ensures forall x <- SOURCE_EXTRACTORS :: |x| > 18 && x[18] == 's' as int
  {
  }

  lemma OtherNames()
    ensures Ascii("code-system-graph.packages")[18] == 'p' as int
    ensures |Ascii("code-system-graph.packages")| != |PROTOBUF_GENERATED|
    ensures Ascii("code-system-graph.graphql.document")[18] == 'g' as int
    ensures Ascii("code-system-graph.graphql.persisted")[18] == 'g' as int
    ensures Ascii("code-system-graph.events.asyncapi")[18] == 'e' as int
    ensures Ascii("code-system-graph.protobuf")[18] == 'p' as int
    ensures |GRAPHQL_SOURCE| > 18 && GRAPHQL_SOURCE[18] == 'g' as int
    ensures |EVENTS_SOURCE| > 18 && EVENTS_SOURCE[18] == 'e' as int
    ensures |PROTOBUF_GENERATED| > 18 && PROTOBUF_GENERATED[18] == 'p' as int
    ensures |DATA_SOURCE| > 18 && DATA_SOURCE[18] == 'd' as int
  {
  }

  lemma DataArtifactKeepsDocuments(o: Output)
    requires o.source.extractor == DATA_ARTIFACT && o.kind == KindOf(DATA_ARTIFACT)
    ensures !FactFree(o)
  {
    assert |DATA_ARTIFACT| != |GRAPHQL_SOURCE| && |DATA_ARTIFACT| != |DATA_SOURCE|;
    assert |DATA_ARTIFACT| != |PROTOBUF_GENERATED|;
    if |DATA_ARTIFACT| == |EVENTS_SOURCE| {
      assert DATA_ARTIFACT[18] != EVENTS_SOURCE[18];
    }
  }
}
