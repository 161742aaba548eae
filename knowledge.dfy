/** Knowledge validation and storage of `KnowledgeStore` (app/knowledge.py).
    The vector-database collection is modelled as the sequence of records it
    holds, in insertion order; the embedding computed for each document and
    its random identifier are left out. */
module Knowledge {
  import opened Text

  /** Fewest characters the stripped knowledge may have. */
  const MinKnowledge := 10
  /** Most characters the raw knowledge may have. */
  const MaxKnowledge := 5000

  /** A stored document with its metadata. Metadata values are strings. */
  datatype Record = Record(document: string, metadata: map<string, string>)

  /** One hit of the similarity search, as `retrieve_relevant_knowledge`
      returns it. */
  datatype Retrieved = Retrieved(text: string, topic: string, score: real)

  /** `validate_knowledge`: the text is rejected when it is empty or its
      stripped form is shorter than ten characters, and when the raw text
      (padding included) is longer than five thousand. */
  function ValidateKnowledge(knowledge: string, topic: string): (ok: bool)
    ensures ok <==> |Strip(knowledge)| >= MinKnowledge && |knowledge| <= MaxKnowledge
  {
    if knowledge == [] || |Strip(knowledge)| < MinKnowledge then false
    else if |knowledge| > MaxKnowledge then false
    else true
  }

  /** The topic never affects the verdict. */
  lemma ValidateIgnoresTopic(knowledge: string, topic1: string, topic2: string)
    ensures ValidateKnowledge(knowledge, topic1) == ValidateKnowledge(knowledge, topic2)
  {
  }

  /** Trailing whitespace padding counts against the upper bound but never
      towards the lower one. */
  lemma ValidatePadding(knowledge: string, pad: string, topic: string)
    requires forall i :: 0 <= i < |pad| ==> IsSpace(pad[i])
    ensures ValidateKnowledge(knowledge + pad, topic) <==>
      |Strip(knowledge)| >= MinKnowledge && |knowledge| + |pad| <= MaxKnowledge
  {
    StripIgnoresPadding(knowledge, pad);
  }

  /** The metadata stored with a document: `{"topic": topic}` when the topic
      is non-empty, then updated with the caller's metadata. */
  function MergeMetadata(topic: string, metadata: map<string, string>): (m: map<string, string>)
    ensures m.Keys == metadata.Keys + (if topic != [] then {"topic"} else {})
    ensures "topic" in m <==> topic != [] || "topic" in metadata
    ensures forall key :: key in metadata ==> m[key] == metadata[key]
    ensures topic != [] && "topic" !in metadata ==> m["topic"] == topic
  {
    var base := if topic != [] then map["topic" := topic] else map[];
    if metadata != map[] then base + metadata else base
  }

  function Min(a: int, b: int): int {
    if a <= b then a else b
  }

  class KnowledgeStore {
    /** The documents of the collection, oldest first. */
    var records: seq<Record>

    /** Opens a collection that already holds `existing`. */
    constructor (existing: seq<Record>)
      ensures records == existing
    {
      records := existing;
    }

    /** `store_knowledge`: adds one record when the text is valid; the
        document is the text as given, not stripped. A missing `metadata`
        argument is the empty map, which `if metadata` skips alike. */
    method StoreKnowledge(knowledge: string, topic: string, metadata: map<string, string>)
      returns (stored: bool)
      modifies this
      ensures stored == ValidateKnowledge(knowledge, topic)
      ensures stored ==> records == old(records) + [Record(knowledge, MergeMetadata(topic, metadata))]
      ensures !stored ==> records == old(records)
    {
      if !ValidateKnowledge(knowledge, topic) {
        return false;
      }
      var docMetadata: map<string, string> := if topic != [] then map["topic" := topic] else map[];
      if |metadata| > 0 {
        docMetadata := docMetadata + metadata;
      }
      records := records + [Record(knowledge, docMetadata)];
      stored := true;
    }

    /** `retrieve_relevant_knowledge`: an empty collection answers with no
        hits and the query is never encoded. Otherwise the encoding, the
        nearest-neighbour query and the similarity filter, which are not
        modelled, are `search`, asked for `min(topK, count)` results. */
    method RetrieveRelevantKnowledge(query: string, topK: int, search: (string, int) -> seq<Retrieved>)
      returns (hits: seq<Retrieved>, searched: bool)
      ensures searched <==> |records| > 0
      ensures |records| == 0 ==> hits == []
      ensures |records| > 0 ==> hits == search(query, Min(topK, |records|))
    {
      if |records| == 0 {
        return [], false;
      }
      hits := search(query, Min(topK, |records|));
      searched := true;
    }
  }
}
