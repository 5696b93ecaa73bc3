/** `build_domain_model`: filter the segments, run the three extractors on
    the kept ones and assemble the domain model, classes in name order. */
module ModelBuilder {
  import opened Text
  import opened StringOrder
  import opened Filter
  import opened Concepts
  import opened ClassExtraction
  import opened AttributeExtraction
  import opened RelationExtraction

  const Version: string := "0.1"

  datatype Metadata = Metadata(docId: string, createdAt: string, version: string)

  datatype ClassEntry = ClassEntry(name: string, attributes: seq<Attribute>, sourceSegments: seq<string>)

  /** The quality block: the filter's three figures and the two counts. */
  datatype ModelQuality = ModelQuality(numSegments: nat, keptSegments: nat, filterRatio: real,
                                       numClasses: nat, numRelations: nat)

  datatype DomainModel = DomainModel(metadata: Metadata, segments: seq<Segment>, classes: seq<ClassEntry>,
                                     relations: seq<Relation>, quality: ModelQuality)

  /** One entry of `classes`: the attributes found for the name (none when
      the attribute map has no such key) and its segment ids in order. */
  function EntryOf(classMap: map<string, set<string>>, attrs: map<string, seq<Attribute>>, name: string): ClassEntry
  {
    ClassEntry(name, if name in attrs then attrs[name] else [],
               Sorted(if name in classMap then classMap[name] else {}))
  }

  /** The model `build_domain_model` returns, as a value. */
  function ModelOf(docId: string, createdAt: string, allSegments: seq<Segment>): DomainModel
  {
    var kept := FilterRelevant(allSegments);
    var q := QualityMetrics(allSegments, kept);
    var classMap := ClassMapOf(kept);
    var names := Sorted(classMap.Keys);
    var attrs := AttributesOf(kept);
    var relations := KeepFirstPairs(CollectedOf(VariantsOf(names), kept));
    var classes := EntriesOf(classMap, attrs, names);
    DomainModel(Metadata(docId, createdAt, Version), allSegments, classes, relations,
                ModelQuality(q.numSegments, q.keptSegments, q.filterRatio, |classes|, |relations|))
  }

  /** The entries, one per name, in the order of `names`. */
  function EntriesOf(classMap: map<string, set<string>>, attrs: map<string, seq<Attribute>>,
                     names: seq<string>): seq<ClassEntry>
  {
    seq(|names|, k requires 0 <= k < |names| => EntryOf(classMap, attrs, names[k]))
  }

  /** The loop of `build_domain_model` that appends one entry per name. */
  method BuildClasses(classMap: map<string, set<string>>, attrs: map<string, seq<Attribute>>, names: seq<string>)
    returns (classes: seq<ClassEntry>)
    ensures classes == EntriesOf(classMap, attrs, names)
  {
    classes := [];
    for i := 0 to |names|
      invariant |classes| == i
      invariant forall k | 0 <= k < i :: classes[k] == EntryOf(classMap, attrs, names[k])
    {
      var name := names[i];
      var attributes := if name in attrs then attrs[name] else [];
      var ids := Sorted(if name in classMap then classMap[name] else {});
      classes := classes + [ClassEntry(name, attributes, ids)];
    }
  }

  /** `build_domain_model`; the creation time is a parameter. */
  method BuildDomainModel(docId: string, createdAt: string, allSegments: seq<Segment>) returns (model: DomainModel)
    ensures model == ModelOf(docId, createdAt, allSegments)
  {
    var kept := FilterRelevant(allSegments);
    var q := QualityMetrics(allSegments, kept);
    var classMap := ExtractCandidateClasses(kept);
    var names := Sorted(classMap.Keys);
    var attrs := ExtractAttributes(kept);
    var relations := ExtractRelations(kept, names);
    var classes := BuildClasses(classMap, attrs, names);
    model := DomainModel(Metadata(docId, createdAt, Version), allSegments, classes, relations,
                         ModelQuality(q.numSegments, q.keptSegments, q.filterRatio, |classes|, |relations|));
  }

  /** The metadata, the echoed segments and the quality figures. */
  lemma ModelHeader(docId: string, createdAt: string, allSegments: seq<Segment>)
    ensures var m := ModelOf(docId, createdAt, allSegments);
      && m.metadata == Metadata(docId, createdAt, "0.1")
      && m.segments == allSegments
      && m.quality.numSegments == |allSegments|
      && m.quality.keptSegments == |FilterRelevant(allSegments)|
      && m.quality.keptSegments <= m.quality.numSegments
      && 0.0 <= m.quality.filterRatio <= 1.0
      && m.quality.numClasses == |m.classes| == |ClassMapOf(FilterRelevant(allSegments)).Keys|
      && m.quality.numRelations == |m.relations|
  {
  }

  /** The class names of a model, in its order. */
  function NamesOf(classes: seq<ClassEntry>): (names: seq<string>)
    ensures |names| == |classes| && forall i | 0 <= i < |classes| :: names[i] == classes[i].name
  {
    seq(|classes|, i requires 0 <= i < |classes| => classes[i].name)
  }

  /** The classes appear in ascending name order, each once, and they are
      exactly the keys of the class map over the kept segments; every
      name passes the concept gate. */
  lemma ModelClasses(docId: string, createdAt: string, allSegments: seq<Segment>)
    ensures var m := ModelOf(docId, createdAt, allSegments);
      && StrictlySorted(NamesOf(m.classes))
      && (forall n :: n in NamesOf(m.classes) <==> n in ClassMapOf(FilterRelevant(allSegments)))
      && (forall n | n in NamesOf(m.classes) :: OkConcept(n))
  {
    var kept := FilterRelevant(allSegments);
    ModelNames(docId, createdAt, allSegments);
    ClassMapKeysAccepted(kept);
  }

  /** The names are the sorted keys of the class map over the kept segments. */
  lemma ModelNames(docId: string, createdAt: string, allSegments: seq<Segment>)
    ensures NamesOf(ModelOf(docId, createdAt, allSegments).classes) ==
            Sorted(ClassMapOf(FilterRelevant(allSegments)).Keys)
  {
    var kept := FilterRelevant(allSegments);
    var classMap := ClassMapOf(kept);
    var names := Sorted(classMap.Keys);
    var classes := ModelOf(docId, createdAt, allSegments).classes;
    assert classes == EntriesOf(classMap, AttributesOf(kept), names);
    assert NamesOf(classes) == names;
  }

  /** Each class lists, in ascending order and once each, the ids of
      relevant segments of `allSegments`, and at least one. */
  predicate SourcedClasses(classes: seq<ClassEntry>, allSegments: seq<Segment>)
  {
    forall i | 0 <= i < |classes| ::
      && StrictlySorted(classes[i].sourceSegments)
      && |classes[i].sourceSegments| > 0
      && forall id | id in classes[i].sourceSegments ::
           exists s | s in allSegments :: s.segmentId == id && s.kind != INFO
  }

  /** The classes of the model are the entries for the sorted class-map keys. */
  lemma ModelClassEntries(docId: string, createdAt: string, allSegments: seq<Segment>)
    ensures var kept := FilterRelevant(allSegments);
      var classMap := ClassMapOf(kept);
      ModelOf(docId, createdAt, allSegments).classes == EntriesOf(classMap, AttributesOf(kept), Sorted(classMap.Keys))
  {
  }

  /** Each class of the model lists, in ascending order and once each, the
      ids of the relevant segments that named it: exactly the ids the class
      map holds for its name. */
  lemma ModelClassSources(docId: string, createdAt: string, allSegments: seq<Segment>)
    ensures SourcedClasses(ModelOf(docId, createdAt, allSegments).classes, allSegments)
    ensures var m := ModelOf(docId, createdAt, allSegments);
      var classMap := ClassMapOf(FilterRelevant(allSegments));
      forall i | 0 <= i < |m.classes| ::
        && m.classes[i].name in classMap
        && forall id :: id in m.classes[i].sourceSegments <==> id in classMap[m.classes[i].name]
  {
    var kept := FilterRelevant(allSegments);
    var classMap := ClassMapOf(kept);
    var classes := ModelOf(docId, createdAt, allSegments).classes;
    ClassMapSources(allSegments);
    EntriesSources(classMap, AttributesOf(kept), allSegments);
    EntriesIds(classMap, AttributesOf(kept));
    ModelClassEntries(docId, createdAt, allSegments);
    assert IdsMatch(classes, classMap);
  }

  /** Each entry is named by a key of the class map and lists exactly the
      ids the map holds for that key. */
  ghost predicate IdsMatch(classes: seq<ClassEntry>, classMap: map<string, set<string>>)
  {
    forall i | 0 <= i < |classes| ::
      && classes[i].name in classMap
      && forall id :: id in classes[i].sourceSegments <==> id in classMap[classes[i].name]
  }

  /** The entries built from the sorted keys of a class map carry, for each
      name, exactly the ids the map holds for it. */
  lemma EntriesIds(classMap: map<string, set<string>>, attrs: map<string, seq<Attribute>>)
    ensures IdsMatch(EntriesOf(classMap, attrs, Sorted(classMap.Keys)), classMap)
  {
    var names := Sorted(classMap.Keys);
    var es := EntriesOf(classMap, attrs, names);
    forall i | 0 <= i < |es|
      ensures es[i].name in classMap
      ensures forall id :: id in es[i].sourceSegments <==> id in classMap[es[i].name]
    {
      assert names[i] in names;
      assert es[i] == EntryOf(classMap, attrs, names[i]);
    }
  }

  /** Every name of a class map has at least one id, and each id is that
      of a relevant segment of `allSegments`. */
  predicate IdsFrom(classMap: map<string, set<string>>, allSegments: seq<Segment>)
  {
    && (forall n | n in classMap :: classMap[n] != {})
    && forall n, id | n in classMap && id in classMap[n] ::
         exists s | s in allSegments :: s.segmentId == id && s.kind != INFO
  }

  /** The class map over the relevant segments draws its ids from the input. */
  lemma ClassMapSources(allSegments: seq<Segment>)
    ensures IdsFrom(ClassMapOf(FilterRelevant(allSegments)), allSegments)
  {
    var kept := FilterRelevant(allSegments);
    forall n | n in ClassMapOf(kept)
      ensures ClassMapOf(kept)[n] != {}
    {
      ClassIdsNonEmpty(kept, n);
    }
    forall n, id | n in ClassMapOf(kept) && id in ClassMapOf(kept)[n]
      ensures exists s | s in allSegments :: s.segmentId == id && s.kind != INFO
    {
      ClassIdsFromKept(kept, n, id);
      var s :| s in kept && s.segmentId == id && s.kind != INFO;
      assert s in allSegments;
    }
  }

  /** The entries of a class map whose id sets are non-empty and drawn from
      `allSegments` list those ids sorted, once each. */
  lemma EntriesSources(classMap: map<string, set<string>>, attrs: map<string, seq<Attribute>>,
                       allSegments: seq<Segment>)
    requires IdsFrom(classMap, allSegments)
    ensures SourcedClasses(EntriesOf(classMap, attrs, Sorted(classMap.Keys)), allSegments)
  {
    var names := Sorted(classMap.Keys);
    var es := EntriesOf(classMap, attrs, names);
    forall i | 0 <= i < |es|
      ensures |es[i].sourceSegments| > 0
      ensures forall id | id in es[i].sourceSegments ::
        exists s | s in allSegments :: s.segmentId == id && s.kind != INFO
    {
      var n := names[i];
      assert n in classMap;
      assert es[i].sourceSegments == Sorted(classMap[n]);
      var id :| id in classMap[n];
      assert id in es[i].sourceSegments;
    }
  }

  lemma ClassIdsNonEmpty(kept: seq<Segment>, n: string)
    requires n in ClassMapOf(kept)
    ensures ClassMapOf(kept)[n] != {}
  {
    ClassMapExact(kept);
    var j :| 0 <= j < |kept| && n in SegmentClassNames(kept[j]);
    assert kept[j].segmentId in ClassMapOf(kept)[n];
  }

  lemma ClassIdsFromKept(kept: seq<Segment>, n: string, id: string)
    requires n in ClassMapOf(kept) && id in ClassMapOf(kept)[n]
    ensures exists s | s in kept :: s.segmentId == id && s.kind != INFO
  {
    ClassMapKeysAccepted(kept);
    var j :| 0 <= j < |kept| && kept[j].segmentId == id && kept[j].kind != INFO;
    assert kept[j] in kept;
  }

  /** Each class lists the attributes the attribute extractor found for its
      name, or none; each is well formed and was read from a DEF segment of
      the input, and names are unique per class, ignoring case. */
  lemma ModelAttributes(docId: string, createdAt: string, allSegments: seq<Segment>)
    ensures var m := ModelOf(docId, createdAt, allSegments);
      var attrs := AttributesOf(FilterRelevant(allSegments));
      forall i | 0 <= i < |m.classes| ::
        m.classes[i].attributes == if m.classes[i].name in attrs then attrs[m.classes[i].name] else []
    ensures var m := ModelOf(docId, createdAt, allSegments);
      forall i | 0 <= i < |m.classes| ::
        && UniqueCI(m.classes[i].attributes)
        && forall a | a in m.classes[i].attributes ::
             GoodAttribute(a) && exists s | s in allSegments :: s.kind == DEF && a.sourceSegments == [s.segmentId]
  {
    ModelClassEntries(docId, createdAt, allSegments);
    ClassAttributes(allSegments);
  }

  /** The entries over the relevant segments list the attribute map's lists,
      which are well formed and sourced. */
  lemma ClassAttributes(allSegments: seq<Segment>)
    ensures var kept := FilterRelevant(allSegments);
      var classMap := ClassMapOf(kept);
      var es := EntriesOf(classMap, AttributesOf(kept), Sorted(classMap.Keys));
      ListsMatch(es, AttributesOf(kept)) && SourcedAttributes(es, allSegments)
  {
    var kept := FilterRelevant(allSegments);
    var classMap := ClassMapOf(kept);
    AttributeMapSources(allSegments);
    EntriesAttributeLists(classMap, AttributesOf(kept), Sorted(classMap.Keys));
    EntriesAttributes(classMap, AttributesOf(kept), Sorted(classMap.Keys), allSegments);
  }

  /** Unique names per class, and well-formed attributes, each read from a
      DEF segment of `allSegments`. */
  predicate AttributesFrom(attrs: map<string, seq<Attribute>>, allSegments: seq<Segment>)
  {
    forall n | n in attrs ::
      && UniqueCI(attrs[n])
      && forall a | a in attrs[n] ::
           GoodAttribute(a) && exists s | s in allSegments :: s.kind == DEF && a.sourceSegments == [s.segmentId]
  }

  /** The attribute map over the relevant segments draws its attributes
      from DEF segments of the input. */
  lemma AttributeMapSources(allSegments: seq<Segment>)
    ensures AttributesFrom(AttributesOf(FilterRelevant(allSegments)), allSegments)
  {
    var kept := FilterRelevant(allSegments);
    AttributesOfInvariant(kept);
    InvariantFrom(AttributesOf(kept), kept, allSegments);
  }

  /** The extractor's invariant over `kept`, read against a list holding
      every segment of `kept`. */
  lemma InvariantFrom(attrs: map<string, seq<Attribute>>, kept: seq<Segment>, allSegments: seq<Segment>)
    requires AttributesInvariant(attrs, kept)
    requires forall s | s in kept :: s in allSegments
    ensures AttributesFrom(attrs, allSegments)
  {
    forall n, a | n in attrs && a in attrs[n]
      ensures GoodAttribute(a) && exists s | s in allSegments :: s.kind == DEF && a.sourceSegments == [s.segmentId]
    {
      var k :| 0 <= k < |attrs[n]| && attrs[n][k] == a;
      assert FromDefSegment(a, kept);
      var j :| 0 <= j < |kept| && kept[j].kind == DEF && a.sourceSegments == [kept[j].segmentId];
      assert kept[j] in kept;
    }
  }

  /** Each entry lists what the attribute map holds for its name, or none. */
  predicate ListsMatch(classes: seq<ClassEntry>, attrs: map<string, seq<Attribute>>)
  {
    forall i | 0 <= i < |classes| ::
      classes[i].attributes == if classes[i].name in attrs then attrs[classes[i].name] else []
  }

  /** Each entry takes the attribute list the map holds for its name, or none. */
  lemma EntriesAttributeLists(classMap: map<string, set<string>>, attrs: map<string, seq<Attribute>>,
                              names: seq<string>)
    ensures ListsMatch(EntriesOf(classMap, attrs, names), attrs)
  {
  }

  /** Per class, unique names ignoring case, and well-formed attributes,
      each read from a DEF segment of `allSegments`. */
  predicate SourcedAttributes(classes: seq<ClassEntry>, allSegments: seq<Segment>)
  {
    forall i | 0 <= i < |classes| ::
      && UniqueCI(classes[i].attributes)
      && forall a | a in classes[i].attributes ::
           GoodAttribute(a) && exists s | s in allSegments :: s.kind == DEF && a.sourceSegments == [s.segmentId]
  }

  /** Well-formed, sourced attribute lists stay so in the entries. */
  lemma EntriesAttributes(classMap: map<string, set<string>>, attrs: map<string, seq<Attribute>>,
                          names: seq<string>, allSegments: seq<Segment>)
    requires AttributesFrom(attrs, allSegments)
    ensures SourcedAttributes(EntriesOf(classMap, attrs, names), allSegments)
  {
    var es := EntriesOf(classMap, attrs, names);
    forall i | 0 <= i < |es|
      ensures UniqueCI(es[i].attributes)
    {
      if names[i] !in attrs {
        assert es[i].attributes == [];
      }
    }
  }

  /** Every relation joins two different classes of the model, is an
      association read from a relevant segment, and no two relations join
      the same unordered pair. */
  lemma ModelRelations(docId: string, createdAt: string, allSegments: seq<Segment>)
    ensures var m := ModelOf(docId, createdAt, allSegments);
      && (forall r | r in m.relations ::
            && r.source != r.target
            && r.source in NamesOf(m.classes) && r.target in NamesOf(m.classes)
            && r.relType == "association"
            && exists s | s in allSegments :: s.kind != INFO && r.sourceSegments == [s.segmentId])
      && (forall i, j | 0 <= i < j < |m.relations| :: PairOf(m.relations[i]) != PairOf(m.relations[j]))
  {
    var kept := FilterRelevant(allSegments);
    var names := Sorted(ClassMapOf(kept).Keys);
    ModelNames(docId, createdAt, allSegments);
    RelationSources(allSegments);
    assert ModelOf(docId, createdAt, allSegments).relations == KeepFirstPairs(CollectedOf(VariantsOf(names), kept));
  }

  /** The relations over the relevant segments, stated against the input. */
  lemma RelationSources(allSegments: seq<Segment>)
    ensures var kept := FilterRelevant(allSegments);
      var names := Sorted(ClassMapOf(kept).Keys);
      var rels := KeepFirstPairs(CollectedOf(VariantsOf(names), kept));
      && (forall r | r in rels ::
            && r.source != r.target && r.source in names && r.target in names
            && r.relType == "association"
            && exists s | s in allSegments :: s.kind != INFO && r.sourceSegments == [s.segmentId])
      && (forall i, j | 0 <= i < j < |rels| :: PairOf(rels[i]) != PairOf(rels[j]))
  {
    var kept := FilterRelevant(allSegments);
    var names := Sorted(ClassMapOf(kept).Keys);
    RelationsSound(names, kept);
    forall r | r in KeepFirstPairs(CollectedOf(VariantsOf(names), kept))
      ensures exists s | s in allSegments :: s.kind != INFO && r.sourceSegments == [s.segmentId]
    {
      assert SoundRelation(r, names, kept);
      var j :| 0 <= j < |kept| && kept[j].kind != INFO && r.sourceSegments == [kept[j].segmentId];
      assert kept[j] in kept;
    }
  }

  /** Segment ids sort as strings, not as numbers: "S10" comes before "S2". */
  lemma SegmentIdsSortAsText()
    ensures Less(SegmentId(10), SegmentId(2))
  {
    assert Text.Decimal(10) == "10" && Text.Decimal(2) == "2";
    assert Less("10", "2");
  }
}
